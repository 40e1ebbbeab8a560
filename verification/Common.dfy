/**
common/common.c and common/protocol.h: header constants, the header packers, and the loops that
look a header up in a packet.

A C program run that calls exit(1), or whose behaviour is undefined (it reads an uninitialised
pointer, overruns a buffer, or takes a non-string for a string), is the outcome `Abort`.
*/
module Common {
  import opened MsgPack

  const MESSAGE_ID_HDR: bytes := "message-id"
  const OPERATION_HDR: bytes := "op"
  const REPLY_PORT_HDR: bytes := "reply-port"
  const SENDER_ADDRESS_HDR: bytes := "sender-address"
  const SERVICE_NAME_HDR: bytes := "service-name"
  const SERVICES_COUNT_HDR: bytes := "services-count"
  const REPLY_HDR: bytes := "reply"
  const REQUEST_TYPE_HDR: bytes := "request-type"
  const SERVICE_PARAMS_HDR: bytes := "params"
  const SERVICES_HDR: bytes := "services"
  const MAX_HEADER_NAME_SIZE := 20

  predicate GoodName(name: bytes)
  {
    '\0' !in name && |name| < MAX_HEADER_NAME_SIZE
  }

  lemma HeaderNames()
    ensures GoodName(MESSAGE_ID_HDR) && GoodName(OPERATION_HDR) && GoodName(REPLY_PORT_HDR) &&
      GoodName(SENDER_ADDRESS_HDR)
    ensures GoodName(SERVICE_NAME_HDR) && GoodName(SERVICES_COUNT_HDR) && GoodName(REPLY_HDR) &&
      GoodName(REQUEST_TYPE_HDR)
    ensures GoodName(SERVICE_PARAMS_HDR) && GoodName(SERVICES_HDR)
    ensures |MESSAGE_ID_HDR| == 10 && |OPERATION_HDR| == 2 && |REPLY_PORT_HDR| == 10 && |SENDER_ADDRESS_HDR| == 14
    ensures |SERVICE_NAME_HDR| == 12 && |SERVICES_COUNT_HDR| == 14 && |REPLY_HDR| == 5 && |REQUEST_TYPE_HDR| == 12
    ensures |SERVICE_PARAMS_HDR| == 6 && |SERVICES_HDR| == 8
    ensures MESSAGE_ID_HDR != REPLY_PORT_HDR && SENDER_ADDRESS_HDR != SERVICES_COUNT_HDR &&
      REQUEST_TYPE_HDR != SERVICE_NAME_HDR
  {
    assert MESSAGE_ID_HDR[0] != REPLY_PORT_HDR[0];
    assert SENDER_ADDRESS_HDR[2] != SERVICES_COUNT_HDR[2];
    assert REQUEST_TYPE_HDR[0] != SERVICE_NAME_HDR[0];
  }

  const SERVICE_REQUEST := 0
  const SERVICE_REQUEST_RESPONSE := 1
  const SERVICE_REGISTRATION := 2
  const SERVICE_REGISTRATION_ACK := 3
  const FAILED := 4

  datatype Option<+T> = None | Some(value: T)
  datatype Outcome<+T> = Ok(value: T) | Abort

  /** A `char*`: memory malloc handed out but nobody wrote, NULL, or a C string. */
  datatype Ptr = Uninit | Null | At(s: bytes)

  datatype Endpoint = Endpoint(address: bytes, port: bytes)

  // ---------- C strings and ints ----------

  /** The string C sees in a run of bytes: everything before the first NUL. */
  function CStr(s: bytes): (r: bytes)
    ensures r <= s && '\0' !in r
    ensures |r| < |s| ==> s[|r|] == '\0'
  {
    if s == [] || s[0] == '\0' then [] else [s[0]] + CStr(s[1..])
  }

  /** NUL-free, and short enough for its length to fit an int. */
  predicate IsC(s: bytes)
  {
    '\0' !in s && |s| < 0x8000_0000
  }

  predicate GoodEndpoint(e: Endpoint)
  {
    IsC(e.address) && IsC(e.port)
  }

  /** Where to reach a process: C strings both. */
  type Address = e: Endpoint | GoodEndpoint(e) witness Endpoint([], [])

  /** A packet handed to send_req. */
  datatype Send = Send(address: bytes, port: bytes, packet: bytes)

  /** From this length on, a packet length stored into an int is negative. */
  const INT_LIMIT := 0x8000_0000

  lemma {:induction false} CStrIdentity(s: bytes)
    requires '\0' !in s
    ensures CStr(s) == s
  {
    if s != [] {
      assert s[0] in s;
      assert forall c | c in s[1..] :: c in s;
      CStrIdentity(s[1..]);
    }
  }

  /** The 64-bit value an unpacked integer carries, stored into a 32-bit int. */
  function ToInt32(n: nat): (i: int)
    ensures IsInt32(i)
    ensures n < 0x8000_0000 ==> i == n
    ensures n % 0x1_0000_0000 == if i >= 0 then i else i + 0x1_0000_0000
  {
    var low := n % 0x1_0000_0000;
    if low >= 0x8000_0000 then low - 0x1_0000_0000 else low
  }

  // ---------- Packing headers ----------

  /** A header is a map of one pair. */
  function Header(name: bytes, val: Value): (v: Value)
    ensures |name| < 0x1_0000_0000 && Packable(val) ==> Packable(v)
  {
    var v := Map([Str(name), val]);
    assert |v.items| == 2;
    assert forall e | e in v.items :: e == Str(name) || e == val;
    v
  }

  /** The bytes of a header up to its value. */
  function HeaderStart(name: bytes): bytes
    requires |name| < 0x1_0000_0000
  {
    HeadBytes(MapHead(1)) + HeadBytes(StrHead(|name|)) + name
  }

  lemma HeaderEncoding(name: bytes, val: Value)
    requires |name| < 0x1_0000_0000 && Packable(val)
    ensures Encode(Header(name, val)) == HeaderStart(name) + Encode(val)
  {
    hide HeadBytes;
    EncodePair(Str(name), val);
    StrEncoding(name);
    var items := [Str(name), val];
    assert |items| / 2 == 1;
    var a, b := HeadBytes(MapHead(1)), HeadBytes(StrHead(|name|));
    assert a + ((b + name) + Encode(val)) == a + b + name + Encode(val);
  }

  /** A header is packed as 81, its name and its value. */
  lemma HeaderLayout(name: bytes, val: Value)
    requires |name| < 0x1_0000_0000 && Packable(val)
    ensures Encode(Header(name, val)) == Hex([0x81]) + Encode(Str(name)) + Encode(val)
  {
    hide Encode, HeadBytes;
    HeaderEncoding(name, val);
    EncodedMapHead(1);
    StrEncoding(name);
    var a, b := HeadBytes(MapHead(1)), HeadBytes(StrHead(|name|));
    assert a + b + name == a + (b + name);
  }

  lemma EncodePair(v: Value, w: Value)
    requires Packable(v) && Packable(w)
    ensures forall e | e in [v, w] :: Packable(e)
    ensures EncodeAll([v, w]) == Encode(v) + Encode(w)
  {
    hide Encode;
    assert [v, w][1..] == [w];
    assert EncodeAll([w]) == Encode(w) + EncodeAll([]);
  }

  lemma StrEncoding(s: bytes)
    requires |s| < 0x1_0000_0000
    ensures Encode(Str(s)) == HeadBytes(StrHead(|s|)) + s
  {
  }

  lemma Associate(a: bytes, b: bytes, c: bytes, d: bytes, e: bytes)
    ensures a + b + c + d + e == a + (b + c + d + e)
  {
  }

  lemma Associate4(a: bytes, b: bytes, c: bytes, d: bytes)
    ensures a + b + c + d == a + (b + c + d)
  {
  }

  lemma Regroup(a: bytes, b: bytes, c: bytes, d: bytes)
    ensures a + (b + (c + d)) == a + b + c + d
  {
  }

  /** msgpack_packer with its msgpack_sbuffer: it only ever appends. */
  class Packer {
    var data: bytes

    constructor ()
      ensures data == []
    {
      data := [];
    }

    method PackInt(i: int)
      requires IsInt32(i)
      modifies this
      ensures data == old(data) + Encode(IntValue(i))
    {
      data := data + HeadBytes(IntHead(i));
    }

    method PackStr(n: nat)
      requires n < 0x1_0000_0000
      modifies this
      ensures data == old(data) + HeadBytes(StrHead(n))
    {
      data := data + HeadBytes(StrHead(n));
    }

    method PackStrBody(s: bytes)
      modifies this
      ensures data == old(data) + s
    {
      data := data + s;
    }

    method PackArray(n: nat)
      requires n < 0x1_0000_0000
      modifies this
      ensures data == old(data) + HeadBytes(ArrayHead(n))
    {
      data := data + HeadBytes(ArrayHead(n));
    }

    method PackMap(n: nat)
      requires n < 0x1_0000_0000
      modifies this
      ensures data == old(data) + HeadBytes(MapHead(n))
    {
      data := data + HeadBytes(MapHead(n));
    }
  }

  method PackMapInt(key: bytes, ival: int, pk: Packer)
    requires IsC(key) && IsInt32(ival)
    modifies pk
    ensures pk.data == old(pk.data) + Encode(Header(key, IntValue(ival)))
    ensures Encode(Header(key, IntValue(ival))) == Hex([0x81]) + Encode(Str(key)) + Encode(IntValue(ival))
  {
    hide Encode, EncodeAll, HeadBytes;
    ghost var before := pk.data;
    pk.PackMap(1);
    pk.PackStr(|key|);
    pk.PackStrBody(key);
    pk.PackInt(ival);
    HeaderEncoding(key, IntValue(ival));
    HeaderLayout(key, IntValue(ival));
    Associate(before, HeadBytes(MapHead(1)), HeadBytes(StrHead(|key|)), key, Encode(IntValue(ival)));
  }

  method PackMapStr(key: bytes, value: bytes, pk: Packer)
    requires IsC(key) && IsC(value)
    modifies pk
    ensures pk.data == old(pk.data) + Encode(Header(key, Str(value)))
    ensures Encode(Header(key, Str(value))) == Hex([0x81]) + Encode(Str(key)) + Encode(Str(value))
  {
    hide Encode, EncodeAll, HeadBytes;
    ghost var before := pk.data;
    pk.PackMap(1);
    pk.PackStr(|key|);
    pk.PackStrBody(key);
    pk.PackStr(|value|);
    pk.PackStrBody(value);
    HeaderEncoding(key, Str(value));
    HeaderLayout(key, Str(value));
    StrEncoding(value);
    var body := HeadBytes(StrHead(|value|)) + value;
    Associate(before, HeadBytes(MapHead(1)), HeadBytes(StrHead(|key|)), key, body);
    assert before + HeadBytes(MapHead(1)) + HeadBytes(StrHead(|key|)) + key + HeadBytes(StrHead(|value|)) + value
        == before + HeadBytes(MapHead(1)) + HeadBytes(StrHead(|key|)) + key + body;
  }

  /** Opens a header whose value is packed by what follows. */
  method StartHeader(key: bytes, pk: Packer)
    requires IsC(key)
    modifies pk
    ensures pk.data == old(pk.data) + HeaderStart(key)
  {
    hide HeadBytes;
    ghost var before := pk.data;
    pk.PackMap(1);
    pk.PackStr(|key|);
    pk.PackStrBody(key);
    var a, b := HeadBytes(MapHead(1)), HeadBytes(StrHead(|key|));
    assert before + a + b + key == before + (a + b + key);
  }

  // ---------- Reading headers: what the lookups mean ----------

  datatype Hdr = Hdr(name: bytes, val: Value)

  /** extract_header; the name is read into a zeroed buffer of 20 chars. */
  function ExtractHeader(obj: Value): Outcome<Hdr>
  {
    if obj.Map? && |obj.items| == 2 && obj.items[0].Str? && |obj.items[0].s| < MAX_HEADER_NAME_SIZE
    then Ok(Hdr(CStr(obj.items[0].s), obj.items[1]))
    else Abort
  }

  /** It is one exactly if it is a map of one pair whose key is a string of at most 19 bytes. */
  lemma ExtractHeaderExactly(obj: Value)
    ensures ExtractHeader(obj).Ok? <==> exists key, val :: |key| < 20 && obj == Map([Str(key), val])
    ensures forall key, val | |key| < 20 && obj == Map([Str(key), val]) :: ExtractHeader(obj) == Ok(Hdr(CStr(key), val))
  {
    if ExtractHeader(obj).Ok? {
      assert obj == Map([Str(obj.items[0].s), obj.items[1]]);
    }
  }

  function AllHeaders(objs: seq<Value>): (r: Outcome<seq<Hdr>>)
    ensures r.Ok? ==> |r.value| == |objs| && forall i | 0 <= i < |objs| :: ExtractHeader(objs[i]) == Ok(r.value[i])
    ensures r.Abort? ==> exists i | 0 <= i < |objs| :: ExtractHeader(objs[i]) == Abort
  {
    if objs == [] then Ok([]) else
    var init := objs[..|objs| - 1];
    var last := objs[|objs| - 1];
    match AllHeaders(init)
    case Abort => (var i :| 0 <= i < |init| && ExtractHeader(init[i]) == Abort; assert objs[i] == init[i]; Abort)
    case Ok(hs) =>
      match ExtractHeader(last)
      case Abort => Abort
      case Ok(h) => Ok(hs + [h])
  }

  predicate IntMatch(h: Hdr, name: bytes)
  {
    h.val.PosInt? && h.name == name
  }

  predicate StrMatch(h: Hdr, name: bytes)
  {
    h.val.Str? && h.name == name
  }

  /** The last non-negative integer under this name, 0 when there is none. */
  function LastInt(hs: seq<Hdr>, name: bytes): (i: int)
    ensures IsInt32(i)
  {
    if hs == [] then 0
    else if IntMatch(hs[|hs| - 1], name) then ToInt32(hs[|hs| - 1].val.n)
    else LastInt(hs[..|hs| - 1], name)
  }

  /** The first string under this name, or an abort before it is reached. */
  function FirstStr(objs: seq<Value>, name: bytes): Outcome<Option<bytes>>
  {
    if objs == [] then Ok(None) else
    match ExtractHeader(objs[0])
    case Abort => Abort
    case Ok(h) => if StrMatch(h, name) then Ok(Some(CStr(h.val.s))) else FirstStr(objs[1..], name)
  }

  function HdrInt(packet: bytes, name: bytes): (r: Outcome<int>)
    ensures r.Ok? ==> IsInt32(r.value)
  {
    var s := ReadAll(packet);
    match AllHeaders(s.objs)
    case Abort => Abort
    case Ok(hs) => if s.malformed then Abort else Ok(LastInt(hs, name))
  }

  /** A header that is not there leaves the caller with an uninitialised pointer. */
  function HdrStr(packet: bytes, name: bytes): Outcome<bytes>
  {
    match FirstStr(ReadAll(packet).objs, name)
    case Ok(Some(s)) => Ok(s)
    case _ => Abort
  }

  function OpName(packet: bytes): Outcome<Option<bytes>>
  {
    var s := ReadAll(packet);
    match FirstStr(s.objs, OPERATION_HDR)
    case Abort => Abort
    case Ok(Some(op)) => Ok(Some(op))
    case Ok(None) => if s.malformed then Abort else Ok(None)
  }

  /** get_req_type looks at the first object only. */
  function ReqType(packet: bytes): Outcome<int>
  {
    match Parse(packet)
    case Success(obj, _) =>
      (match ExtractHeader(obj)
       case Ok(h) => if IntMatch(h, REQUEST_TYPE_HDR) then Ok(ToInt32(h.val.n)) else Abort
       case Abort => Abort)
    case _ => Ok(FAILED)
  }

  /** The type of a packet: that of its first object; unreadable packets have type 4, all others none. */
  lemma ReqTypeExactly(packet: bytes)
    ensures !Parse(packet).Success? ==> ReqType(packet) == Ok(4)
    ensures forall n | Parse(packet).Success? && Parse(packet).value == Map([Str("request-type"), PosInt(n)]) ::
      ReqType(packet) == Ok(ToInt32(n))
    ensures Parse(packet).Success? && ReqType(packet).Ok? ==>
      exists key, n :: CStr(key) == "request-type" && Parse(packet).value == Map([Str(key), PosInt(n)])
  {
    hide Parse;
    if Parse(packet).Success? {
      var obj := Parse(packet).value;
      ExtractHeaderExactly(obj);
      CStrIdentity("request-type");
      if ReqType(packet).Ok? {
        var key, n := obj.items[0].s, obj.items[1].n;
        assert CStr(key) == "request-type" && obj == Map([Str(key), PosInt(n)]);
      }
    }
  }

  /** get_hdr_int gives up on a parse error or an object that is no header anywhere in the packet. */
  lemma HdrIntExactly(packet: bytes, name: bytes)
    ensures HdrInt(packet, name) == Abort <==>
      ReadAll(packet).malformed || exists i :: BadObject(ReadAll(packet).objs, i)
  {
    hide ReadAll, ExtractHeader, LastInt;
    var objs := ReadAll(packet).objs;
    if AllHeaders(objs).Abort? {
      var i :| 0 <= i < |objs| && ExtractHeader(objs[i]) == Abort;
      assert BadObject(objs, i);
    }
  }

  ghost predicate BadObject(objs: seq<Value>, i: int)
  {
    0 <= i < |objs| && ExtractHeader(objs[i]) == Abort
  }

  /** get_hdr_str and get_op_name stop at the first match and never look at what follows it. */
  lemma {:induction false} FirstStrStops(front: seq<Value>, rest: seq<Value>, name: bytes)
    ensures FirstStr(front + rest, name) ==
      if FirstStr(front, name) == Ok(None) then FirstStr(rest, name) else FirstStr(front, name)
    ensures |rest| > 0 && ExtractHeader(rest[0]) == Abort ==> FirstStr(rest, name) == Abort
  {
    hide ExtractHeader;
    if front == [] {
      assert front + rest == rest;
    } else {
      assert (front + rest)[1..] == front[1..] + rest;
      FirstStrStops(front[1..], rest, name);
    }
  }

  /** What a packet that ends in a parse error is to the two of them. */
  lemma MalformedPacket(packet: bytes, name: bytes)
    requires ReadAll(packet).malformed && FirstStr(ReadAll(packet).objs, name) == Ok(None)
    ensures HdrStr(packet, name) == Abort && (name == "op" ==> OpName(packet) == Abort)
  {
    hide ReadAll;
  }

  // ---------- Reading headers: the loops ----------

  /** msgpack_unpack_next at offset off. */
  function UnpackNext(packet: bytes, off: nat): (p: Parsed<Value>)
    requires off <= |packet|
    ensures p == Parse(packet[off..])
    ensures p.Success? ==> 0 < p.used <= |packet| - off
    ensures p.Success? ==>
      var s := ReadAll(packet[off + p.used..]);
      ReadAll(packet[off..]) == Stream([p.value] + s.objs, s.malformed)
  {
    var p := Parse(packet[off..]);
    assert p.Success? ==> packet[off..][p.used..] == packet[off + p.used..];
    p
  }

  lemma HeaderSeen(seen: seq<Value>, v: Value, rest: seq<Value>, look: bytes)
    requires AllHeaders(seen).Ok?
    ensures ExtractHeader(v) == Abort ==> AllHeaders(seen + ([v] + rest)) == Abort
    ensures ExtractHeader(v).Ok? ==>
      && AllHeaders(seen + [v]).Ok?
      && LastInt(AllHeaders(seen + [v]).value, look) ==
         (var h := ExtractHeader(v).value;
          if IntMatch(h, look) then ToInt32(h.val.n) else LastInt(AllHeaders(seen).value, look))
  {
    var all := seen + ([v] + rest);
    assert all[|seen|] == v;
    assert (seen + [v])[..|seen|] == seen;
    if ExtractHeader(v).Ok? {
      var hs := AllHeaders(seen + [v]).value;
      assert hs[..|seen|] == AllHeaders(seen).value;
    }
  }

  method GetHdrInt(packet: bytes, look: bytes) returns (r: Outcome<int>)
    ensures r == HdrInt(packet, look)
  {
    hide Parse, ReadAll, ExtractHeader, AllHeaders, LastInt, UnpackNext;
    var off, value := 0, 0;
    ghost var seen: seq<Value> := [];
    ghost var all := ReadAll(packet);
    NothingSeen(look);
    var status := UnpackNext(packet, off);
    assert packet[0..] == packet;
    while status.Success?
      invariant off <= |packet| && status == UnpackNext(packet, off)
      invariant all == Stream(seen + ReadAll(packet[off..]).objs, ReadAll(packet[off..]).malformed)
      invariant AllHeaders(seen).Ok? && value == LastInt(AllHeaders(seen).value, look)
      decreases |packet| - off
    {
      ghost var rest := ReadAll(packet[off + status.used..]).objs;
      HeaderSeen(seen, status.value, rest, look);
      var header := ExtractHeader(status.value);
      if header.Abort? {
        return Abort;
      }
      var h := header.value;
      if IntMatch(h, look) {
        value := ToInt32(h.val.n);
      }
      assert seen + ([status.value] + rest) == seen + [status.value] + rest;
      seen := seen + [status.value];
      off := off + status.used;
      status := UnpackNext(packet, off);
    }
    ReadAllEnd(packet[off..]);
    assert seen + [] == seen;
    if status.ParseError? {
      return Abort;
    }
    return Ok(value);
  }

  lemma NothingSeen(look: bytes)
    ensures AllHeaders([]) == Ok([]) && LastInt([], look) == 0
  {
  }

  lemma ReadAllEnd(b: bytes)
    ensures !Parse(b).Success? ==> ReadAll(b) == Stream([], Parse(b).ParseError?)
  {
  }

  method GetHdrStr(packet: bytes, look: bytes) returns (r: Outcome<bytes>)
    ensures r == HdrStr(packet, look)
  {
    hide Parse, ReadAll;
    var off := 0;
    var status := UnpackNext(packet, off);
    assert packet[0..] == packet;
    while status.Success?
      invariant off <= |packet| && status == UnpackNext(packet, off)
      invariant FirstStr(ReadAll(packet).objs, look) == FirstStr(ReadAll(packet[off..]).objs, look)
      decreases |packet| - off
    {
      var header := ExtractHeader(status.value);
      if header.Abort? {
        return Abort;
      }
      var h := header.value;
      if StrMatch(h, look) {
        return Ok(CStr(h.val.s));
      }
      assert ReadAll(packet[off..]).objs[1..] == ReadAll(packet[off + status.used..]).objs;
      off := off + status.used;
      status := UnpackNext(packet, off);
    }
    ReadAllEnd(packet[off..]);
    return Abort;
  }

  method GetOpName(packet: bytes) returns (r: Outcome<Option<bytes>>)
    ensures r == OpName(packet)
  {
    hide Parse, ReadAll;
    var off := 0;
    var status := UnpackNext(packet, off);
    assert packet[0..] == packet;
    while status.Success?
      invariant off <= |packet| && status == UnpackNext(packet, off)
      invariant FirstStr(ReadAll(packet).objs, OPERATION_HDR) == FirstStr(ReadAll(packet[off..]).objs, OPERATION_HDR)
      invariant ReadAll(packet).malformed == ReadAll(packet[off..]).malformed
      decreases |packet| - off
    {
      var header := ExtractHeader(status.value);
      if header.Abort? {
        return Abort;
      }
      var h := header.value;
      if StrMatch(h, OPERATION_HDR) {
        return Ok(Some(CStr(h.val.s)));
      }
      assert ReadAll(packet[off..]).objs[1..] == ReadAll(packet[off + status.used..]).objs;
      off := off + status.used;
      status := UnpackNext(packet, off);
    }
    ReadAllEnd(packet[off..]);
    if status.ParseError? {
      return Abort;
    }
    return Ok(None);
  }

  // ---------- Lookup on well-formed packets ----------

  /** A header the packers can write and the readers can take in. */
  predicate GoodHdr(h: Hdr)
  {
    GoodName(h.name) && Packable(h.val)
  }

  function Objs(hs: seq<Hdr>): (vs: seq<Value>)
    ensures |vs| == |hs| && forall i | 0 <= i < |hs| :: vs[i] == Header(hs[i].name, hs[i].val)
    ensures (forall h | h in hs :: GoodHdr(h)) ==> forall v | v in vs :: Packable(v)
  {
    var vs := seq(|hs|, i requires 0 <= i < |hs| => Header(hs[i].name, hs[i].val));
    ObjsPackable(hs, vs);
    vs
  }

  lemma ObjsPackable(hs: seq<Hdr>, vs: seq<Value>)
    requires |vs| == |hs| && forall i | 0 <= i < |hs| :: vs[i] == Header(hs[i].name, hs[i].val)
    ensures (forall h | h in hs :: GoodHdr(h)) ==> forall v | v in vs :: Packable(v)
  {
    if forall h | h in hs :: GoodHdr(h) {
      forall v | v in vs
        ensures Packable(v)
      {
        var i :| 0 <= i < |vs| && vs[i] == v;
        assert GoodHdr(hs[i]);
      }
    }
  }

  ghost predicate GoodHdrs(hs: seq<Hdr>)
  {
    forall h | h in hs :: GoodHdr(h)
  }

  /** The packet that carries these headers. */
  function PackHdrs(hs: seq<Hdr>): bytes
    requires forall h | h in hs :: GoodHdr(h)
  {
    EncodeAll(Objs(hs))
  }

  /** Packing one header after the other builds the packet. */
  lemma PackNext(hs: seq<Hdr>, k: nat)
    requires GoodHdrs(hs) && k < |hs|
    ensures GoodHdrs(hs[..k]) && GoodHdrs(hs[..k + 1]) && GoodHdr(hs[k])
    ensures PackHdrs(hs[..k + 1]) == PackHdrs(hs[..k]) + EncodeHdr(hs[k])
    ensures PackHdrs([]) == [] && hs[..0] == [] && hs[..|hs|] == hs
  {
    hide Encode;
    assert hs[k] in hs;
    var v := Header(hs[k].name, hs[k].val);
    assert Objs(hs[..k + 1]) == Objs(hs[..k]) + [v];
    assert [v][1..] == [];
    assert EncodeAll([v]) == Encode(v) + [];
    EncodeAllAppend(Objs(hs[..k]), [v]);
  }

  function EncodeHdr(h: Hdr): bytes
    requires GoodHdr(h)
  {
    Encode(Header(h.name, h.val))
  }

  lemma PackTwo(hs: seq<Hdr>)
    requires |hs| == 2 && GoodHdrs(hs)
    ensures GoodHdr(hs[0]) && GoodHdr(hs[1])
    ensures PackHdrs(hs) == [] + EncodeHdr(hs[0]) + EncodeHdr(hs[1])
  {
    hide Encode, PackHdrs;
    PackNext(hs, 0);
    PackNext(hs, 1);
  }

  lemma PackThree(hs: seq<Hdr>)
    requires |hs| == 3 && GoodHdrs(hs)
    ensures forall i | 0 <= i < 3 :: GoodHdr(hs[i])
    ensures PackHdrs(hs) == [] + EncodeHdr(hs[0]) + EncodeHdr(hs[1]) + EncodeHdr(hs[2])
  {
    hide EncodeHdr, PackHdrs;
    PackNext(hs, 2);
    PackTwo(hs[..2]);
  }

  lemma PackFive(hs: seq<Hdr>)
    requires |hs| == 5 && GoodHdrs(hs)
    ensures forall i | 0 <= i < 5 :: GoodHdr(hs[i])
    ensures PackHdrs(hs) ==
      [] + EncodeHdr(hs[0]) + EncodeHdr(hs[1]) + EncodeHdr(hs[2]) + EncodeHdr(hs[3]) + EncodeHdr(hs[4])
  {
    hide EncodeHdr, PackHdrs;
    PackNext(hs, 4);
    PackNext(hs, 3);
    assert hs[..4][..3] == hs[..3];
    PackThree(hs[..3]);
  }

  /** A header whose value is cut off is not seen at all. */
  lemma UnfinishedHeader(name: bytes, rest: bytes)
    requires |name| < 0x1_0000_0000 && Parse(rest) == Continue
    ensures Parse(HeaderStart(name) + rest) == Continue
  {
    hide Parse, HeadBytes, Encode;
    StrEncoding(name);
    var s := Encode(Str(name));
    ParseManyStep(Str(name), rest, 2);
    OneMore(rest);
    ParseHead(MapHead(1), MapOf(1), s + rest);
    var a, b := HeadBytes(MapHead(1)), HeadBytes(StrHead(|name|));
    assert a + b + name + rest == a + (b + name + rest);
  }

  lemma OneMore(rest: bytes)
    requires Parse(rest) == Continue
    ensures ParseMany(rest, 1) == Continue
  {
  }

  /** So is an array that announces more elements than follow. */
  lemma UnfinishedArray(vs: seq<Value>, n: nat)
    requires forall v | v in vs :: Packable(v)
    requires |vs| < n < 0x1_0000_0000
    ensures Parse(HeadBytes(ArrayHead(n)) + EncodeAll(vs)) == Continue
  {
    hide Parse, HeadBytes, EncodeAll;
    ParseHead(ArrayHead(n), ArrayOf(n), EncodeAll(vs));
    TooFewObjects(vs, n);
  }

  ghost predicate DistinctNames(hs: seq<Hdr>)
  {
    forall i, j | 0 <= i < j < |hs| :: hs[i].name != hs[j].name
  }

  lemma HeadersExtract(hs: seq<Hdr>)
    requires GoodHdrs(hs)
    ensures AllHeaders(Objs(hs)) == Ok(hs)
    ensures forall i | 0 <= i < |hs| :: ExtractHeader(Objs(hs)[i]) == Ok(hs[i])
  {
    forall i | 0 <= i < |hs|
      ensures ExtractHeader(Objs(hs)[i]) == Ok(hs[i])
    {
      assert hs[i] in hs;
      CStrIdentity(hs[i].name);
    }
    var r := AllHeaders(Objs(hs));
    assert r.Ok? && r.value == hs;
  }

  /** Every header of a well-formed packet is read back, followed or not by an unfinished object. */
  lemma HeadersRead(hs: seq<Hdr>, tail: bytes)
    requires GoodHdrs(hs) && Parse(tail) == Continue
    ensures ReadAll(PackHdrs(hs) + tail) == Stream(Objs(hs), false)
    ensures AllHeaders(Objs(hs)) == Ok(hs)
  {
    hide Parse, EncodeAll, Encode;
    ReadEncoded(Objs(hs), tail);
    HeadersExtract(hs);
  }

  /** Headers followed by one whose array is too short for what it announces. */
  lemma CutOff(hs: seq<Hdr>, name: bytes, vs: seq<Value>, n: nat)
    requires GoodHdrs(hs) && |name| < 0x1_0000_0000
    requires forall v | v in vs :: Packable(v)
    requires |vs| < n < 0x1_0000_0000
    ensures ReadAll(PackHdrs(hs) + HeaderStart(name) + HeadBytes(ArrayHead(n)) + EncodeAll(vs)) ==
      Stream(Objs(hs), false)
  {
    hide PackHdrs, EncodeAll, HeadBytes, HeaderStart, Parse, ReadAll, Objs, GoodHdr, Packable;
    UnfinishedArray(vs, n);
    UnfinishedHeader(name, HeadBytes(ArrayHead(n)) + EncodeAll(vs));
    HeadersRead(hs, HeaderStart(name) + (HeadBytes(ArrayHead(n)) + EncodeAll(vs)));
    Regroup(PackHdrs(hs), HeaderStart(name), HeadBytes(ArrayHead(n)), EncodeAll(vs));
  }

  /** get_hdr_int: the last match wins; without a match the answer is 0. */
  lemma {:induction false} LastIntMeaning(hs: seq<Hdr>, name: bytes)
    ensures (exists i :: LastIntAt(hs, name, i) && LastInt(hs, name) == ToInt32(hs[i].val.n))
         || ((forall i | 0 <= i < |hs| :: !IntMatch(hs[i], name)) && LastInt(hs, name) == 0)
  {
    hide ToInt32;
    if hs != [] {
      var init := hs[..|hs| - 1];
      if IntMatch(hs[|hs| - 1], name) {
        assert LastIntAt(hs, name, |hs| - 1);
      } else {
        LastIntMeaning(init, name);
        if i :| LastIntAt(init, name, i) && LastInt(init, name) == ToInt32(init[i].val.n) {
          assert LastIntAt(hs, name, i);
        }
      }
    }
  }

  ghost predicate LastIntAt(hs: seq<Hdr>, name: bytes, i: int)
  {
    0 <= i < |hs| && IntMatch(hs[i], name) && forall j | i < j < |hs| :: !IntMatch(hs[j], name)
  }

  lemma FirstStrStep(hs: seq<Hdr>, name: bytes)
    requires GoodHdrs(hs) && hs != []
    ensures FirstStr(Objs(hs), name) ==
      if StrMatch(hs[0], name) then Ok(Some(CStr(hs[0].val.s))) else FirstStr(Objs(hs[1..]), name)
  {
    hide ExtractHeader, CStr, AllHeaders, StrMatch;
    HeadersExtract(hs);
    assert Objs(hs)[1..] == Objs(hs[1..]);
    assert ExtractHeader(Objs(hs)[0]) == Ok(hs[0]);
  }

  /** get_hdr_str and get_op_name: the first match wins. */
  lemma {:induction false} FirstStrMeaning(hs: seq<Hdr>, name: bytes)
    requires GoodHdrs(hs)
    ensures (exists i :: FirstStrAt(hs, name, i) && FirstStr(Objs(hs), name) == Ok(Some(CStr(hs[i].val.s))))
         || ((forall i | 0 <= i < |hs| :: !StrMatch(hs[i], name)) && FirstStr(Objs(hs), name) == Ok(None))
  {
    hide CStr, GoodHdr, Objs;
    if hs == [] {
      assert Objs(hs) == [];
    } else {
      hide FirstStr;
      FirstStrStep(hs, name);
      if StrMatch(hs[0], name) {
        assert FirstStrAt(hs, name, 0);
      } else {
        var tail := hs[1..];
        FirstStrMeaning(tail, name);
        if i :| FirstStrAt(tail, name, i) && FirstStr(Objs(tail), name) == Ok(Some(CStr(tail[i].val.s))) {
          assert FirstStrAt(hs, name, i + 1);
        }
      }
    }
  }

  ghost predicate FirstStrAt(hs: seq<Hdr>, name: bytes, i: int)
  {
    0 <= i < |hs| && StrMatch(hs[i], name) && forall j | 0 <= j < i :: !StrMatch(hs[j], name)
  }

  /** Only header i has its name. */
  ghost predicate UniqueName(hs: seq<Hdr>, i: nat)
  {
    i < |hs| && forall j | 0 <= j < |hs| && j != i :: hs[j].name != hs[i].name
  }

  /**
  Under a unique name the position of a header does not matter: every lookup of the name, in a
  packet that may end in an unfinished object, gives its value.
  */
  lemma LookupUnique(hs: seq<Hdr>, tail: bytes, i: nat)
    requires GoodHdrs(hs) && UniqueName(hs, i) && Parse(tail) == Continue
    ensures HdrInt(PackHdrs(hs) + tail, hs[i].name) == Ok(if hs[i].val.PosInt? then hs[i].val.n else 0)
    ensures HdrStr(PackHdrs(hs) + tail, hs[i].name) == if hs[i].val.Str? then Ok(CStr(hs[i].val.s)) else Abort
    ensures hs[i].name == OPERATION_HDR ==>
      OpName(PackHdrs(hs) + tail) == Ok(if hs[i].val.Str? then Some(CStr(hs[i].val.s)) else None)
  {
    hide Parse, EncodeAll, Encode, ReadAll, PackHdrs, Objs, CStr, LastInt, FirstStr, AllHeaders;
    HeadersRead(hs, tail);
    assert hs[i] in hs && Packable(hs[i].val);
    LastIntMeaning(hs, hs[i].name);
    FirstStrMeaning(hs, hs[i].name);
    assert forall j | 0 <= j < |hs| && hs[j].name == hs[i].name :: j == i;
  }

  /** A name that no header carries: 0, an uninitialised pointer, NULL. */
  lemma LookupMissing(hs: seq<Hdr>, tail: bytes, name: bytes)
    requires GoodHdrs(hs) && Parse(tail) == Continue
    requires forall h | h in hs :: h.name != name
    ensures HdrInt(PackHdrs(hs) + tail, name) == Ok(0)
    ensures HdrStr(PackHdrs(hs) + tail, name) == Abort
    ensures name == OPERATION_HDR ==> OpName(PackHdrs(hs) + tail) == Ok(None)
  {
    hide Parse, EncodeAll, Encode, ReadAll;
    HeadersRead(hs, tail);
    LastIntMeaning(hs, name);
    FirstStrMeaning(hs, name);
  }

  /** The order in which distinctly named headers were packed is invisible to every lookup. */
  lemma LookupPermutation(hs: seq<Hdr>, hs': seq<Hdr>, name: bytes)
    requires GoodHdrs(hs) && DistinctNames(hs) && DistinctNames(hs') && multiset(hs) == multiset(hs')
    ensures GoodHdrs(hs')
    ensures HdrInt(PackHdrs(hs), name) == HdrInt(PackHdrs(hs'), name)
    ensures HdrStr(PackHdrs(hs), name) == HdrStr(PackHdrs(hs'), name)
    ensures OpName(PackHdrs(hs)) == OpName(PackHdrs(hs'))
  {
    hide Parse, EncodeAll, Encode, ReadAll, HdrInt, HdrStr, OpName;
    assert forall h :: h in hs <==> h in multiset(hs);
    assert forall h :: h in hs' <==> h in multiset(hs');
    EmptyBuffer();
    assert PackHdrs(hs) + [] == PackHdrs(hs) && PackHdrs(hs') + [] == PackHdrs(hs');
    SameLookup(hs, hs', name);
    SameLookup(hs, hs', OPERATION_HDR);
  }

  lemma SameLookup(hs: seq<Hdr>, hs': seq<Hdr>, name: bytes)
    requires GoodHdrs(hs) && GoodHdrs(hs') && DistinctNames(hs) && DistinctNames(hs')
    requires forall h :: h in hs <==> h in hs'
    ensures HdrInt(PackHdrs(hs) + [], name) == HdrInt(PackHdrs(hs') + [], name)
    ensures HdrStr(PackHdrs(hs) + [], name) == HdrStr(PackHdrs(hs') + [], name)
    ensures name == OPERATION_HDR ==> OpName(PackHdrs(hs) + []) == OpName(PackHdrs(hs') + [])
  {
    hide Parse, EncodeAll, Encode, ReadAll, HdrInt, HdrStr, OpName;
    EmptyBuffer();
    if i :| 0 <= i < |hs| && hs[i].name == name {
      assert hs[i] in hs';
      var j :| 0 <= j < |hs'| && hs'[j] == hs[i];
      LookupUnique(hs, [], i);
      LookupUnique(hs', [], j);
    } else {
      LookupMissing(hs, [], name);
      LookupMissing(hs', [], name);
    }
  }

  /** A 32-bit int under a unique name arrives unchanged when it is not negative, and as 0 otherwise. */
  lemma IntegerTransfer(hs: seq<Hdr>, i: nat, v: int)
    requires GoodHdrs(hs) && UniqueName(hs, i) && IsInt32(v) && hs[i].val == IntValue(v)
    ensures HdrInt(PackHdrs(hs), hs[i].name) == Ok(if v >= 0 then v else 0)
    ensures HdrInt(PackHdrs(hs), hs[i].name) == Ok(v) <==> v >= 0
  {
    EmptyBuffer();
    assert PackHdrs(hs) + [] == PackHdrs(hs);
    LookupUnique(hs, [], i);
  }
}
