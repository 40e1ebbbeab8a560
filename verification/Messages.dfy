/**
The four kinds of protocol message (common/protocol.h) as values, the packet each is sent as, and
what every reader of such a packet makes of it.
*/
module Messages {
  import opened MsgPack
  import opened Common
  import opened Formats
  import opened Client
  import opened Server
  import opened Broker

  datatype Msg =
    | Request(id: int, from: Endpoint, op: bytes, args: seq<Arg>)
    | Response(id: int, op: bytes, result: Arg)
    | Registration(from: Endpoint, services: seq<bytes>)
    | Ack

  /** Message ids come from rand(); services are the names of the server's table, last one first. */
  ghost predicate GoodMsg(m: Msg)
  {
    match m
    case Request(id, from, op, args) => 0 <= id < 0x8000_0000 && GoodEndpoint(from) && IsC(op) && |args| < 0x1000_0000
    case Response(id, op, _) => 0 <= id < 0x8000_0000 && IsC(op)
    case Registration(from, services) =>
      GoodEndpoint(from) && |services| < 0x1000_0000 && forall s | s in services :: IsC(s)
    case Ack => true
  }

  function ReplyHdr(result: Arg): Hdr
  {
    Hdr(REPLY_HDR, ArgValue(result))
  }

  function ServicesHdr(services: seq<bytes>): Hdr
  {
    Hdr(SERVICES_HDR, Array(Strs(services)))
  }

  function Reversed(names: seq<bytes>): (r: seq<bytes>)
    ensures |r| == |names| && forall i | 0 <= i < |names| :: r[i] == names[|names| - 1 - i]
  {
    seq(|names|, i requires 0 <= i < |names| => names[|names| - 1 - i])
  }

  lemma ReversedTwice(names: seq<bytes>)
    ensures Reversed(Reversed(names)) == names
    ensures forall n :: n in Reversed(names) <==> n in names
  {
    forall n | n in names
      ensures n in Reversed(names)
    {
      var i :| 0 <= i < |names| && names[i] == n;
      assert Reversed(names)[|names| - 1 - i] == n;
    }
  }

  /** The headers that can be read from a message: an empty name leaves the last one of a registration unfinished. */
  function MsgHdrs(m: Msg): seq<Hdr>
  {
    match m
    case Request(id, from, op, args) => CallHdrs(id, from, op, args)
    case Response(id, op, result) => ResponseHdrs(id, op) + [ReplyHdr(result)]
    case Registration(from, services) =>
      RegistrationHdrs(from, |services|) + if [] in services then [] else [ServicesHdr(services)]
    case Ack => AckHdrs(0)
  }

  lemma MsgHdrsGood(m: Msg)
    requires GoodMsg(m)
    ensures GoodHdrs(MsgHdrs(m))
  {
    HeaderNames();
    match m
    case Request(id, from, op, args) => CallHdrsGood(id, from, op, args);
    case Response(id, op, result) =>
      ResponseHdrsGood(id, op);
      LastHeader(ResponseHdrs(id, op), ReplyHdr(result));
    case Registration(from, services) =>
      RegistrationHdrsGood(from, |services|);
      ServicesHdrGood(services);
      LastHeader(RegistrationHdrs(from, |services|), ServicesHdr(services));
      assert RegistrationHdrs(from, |services|) + [] == RegistrationHdrs(from, |services|);
    case Ack => AckHdrsGood(0);
  }

  lemma ServicesHdrGood(services: seq<bytes>)
    requires |services| < 0x1000_0000 && forall s | s in services :: IsC(s)
    ensures GoodHdr(ServicesHdr(services))
  {
    HeaderNames();
    hide SERVICES_HDR;
    forall v | v in Strs(services)
      ensures Packable(v)
    {
      var i :| 0 <= i < |services| && v == Str(services[i]);
      assert services[i] in services;
    }
  }

  /** The packet of a message. */
  ghost function Bytes(m: Msg): bytes
    requires GoodMsg(m)
  {
    MsgHdrsGood(m);
    match m
    case Registration(from, services) =>
      ReversedTwice(services);
      RegistrationBytes(from, Reversed(services))
    case _ => PackHdrs(MsgHdrs(m))
  }

  /** What other messages are made of. */
  lemma WholeMsg(m: Msg)
    requires GoodMsg(m) && !m.Registration?
    ensures GoodHdrs(MsgHdrs(m)) && Bytes(m) == PackHdrs(MsgHdrs(m))
  {
    MsgHdrsGood(m);
  }

  // ---------- The packet of a registration ----------

  lemma ServicesEncoding(services: seq<bytes>)
    requires |services| < 0x1000_0000 && forall s | s in services :: IsC(s)
    ensures GoodHdr(ServicesHdr(services)) && |SERVICES_HDR| == 8
    ensures EncodeHdr(ServicesHdr(services)) ==
      HeaderStart(SERVICES_HDR) + HeadBytes(ArrayHead(|services|)) + EncodeAll(Strs(services))
  {
    HeaderNames();
    ServicesHdrGood(services);
    hide EncodeAll, HeadBytes, HeaderStart, SERVICES_HDR, Strs;
    HeaderEncoding(SERVICES_HDR, Array(Strs(services)));
    var b, c, d := HeaderStart(SERVICES_HDR), HeadBytes(ArrayHead(|services|)), EncodeAll(Strs(services));
    assert b + (c + d) == b + c + d;
  }

  lemma PackedReversed(services: seq<bytes>)
    requires [] !in services
    ensures PackedNames(Reversed(services)) == services
  {
    ReversedTwice(services);
    PackedNamesMeaning(Reversed(services));
  }

  /** The packet of any registration: five headers, then an array of the names that are packed. */
  lemma RegistrationPacket(m: Msg)
    requires GoodMsg(m) && m.Registration?
    ensures GoodHdrs(RegistrationHdrs(m.from, |m.services|)) && |SERVICES_HDR| == 8
    ensures forall v | v in Strs(PackedNames(Reversed(m.services))) :: Packable(v)
    ensures Bytes(m) == PackHdrs(RegistrationHdrs(m.from, |m.services|))
      + HeaderStart(SERVICES_HDR) + HeadBytes(ArrayHead(|m.services|))
      + EncodeAll(Strs(PackedNames(Reversed(m.services))))
  {
    hide PackHdrs, EncodeAll, HeadBytes, HeaderStart, RegistrationHdrs, PackedNames, SERVICES_HDR, Strs, Packable;
    HeaderNames();
    ReversedTwice(m.services);
    RegistrationHdrsGood(m.from, |m.services|);
    PackedNamesGood(Reversed(m.services));
  }

  lemma RegistrationParts(m: Msg)
    requires GoodMsg(m) && m.Registration? && [] !in m.services
    ensures GoodHdrs(RegistrationHdrs(m.from, |m.services|)) && |SERVICES_HDR| == 8
    ensures GoodHdr(ServicesHdr(m.services))
    ensures Bytes(m) == PackHdrs(RegistrationHdrs(m.from, |m.services|))
      + HeaderStart(SERVICES_HDR) + HeadBytes(ArrayHead(|m.services|)) + EncodeAll(Strs(m.services))
    ensures MsgHdrs(m) == RegistrationHdrs(m.from, |m.services|) + [ServicesHdr(m.services)]
  {
    hide Bytes, PackHdrs, EncodeAll, HeadBytes, HeaderStart, RegistrationHdrs, GoodHdr, Reversed, PackedNames,
      ServicesHdr;
    PackedReversed(m.services);
    RegistrationPacket(m);
    ServicesHdrGood(m.services);
  }

  /** Without empty names a registration is whole. */
  lemma WholeRegistration(m: Msg)
    requires GoodMsg(m) && m.Registration? && [] !in m.services
    ensures GoodHdrs(MsgHdrs(m)) && Bytes(m) == PackHdrs(MsgHdrs(m))
  {
    var from, services := m.from, m.services;
    hide Bytes, MsgHdrs, PackHdrs, EncodeAll, HeadBytes, HeaderStart, RegistrationHdrs, Strs, GoodHdr, SERVICES_HDR,
      ServicesHdr;
    RegistrationParts(m);
    LastHeader(RegistrationHdrs(from, |services|), ServicesHdr(services));
    ServicesEncoding(services);
    Associate4(PackHdrs(RegistrationHdrs(from, |services|)), HeaderStart(SERVICES_HDR),
      HeadBytes(ArrayHead(|services|)), EncodeAll(Strs(services)));
  }

  lemma UnfinishedParts(m: Msg) returns (vs: seq<Value>)
    requires GoodMsg(m) && m.Registration? && [] in m.services
    ensures GoodHdrs(MsgHdrs(m)) && |SERVICES_HDR| == 8
    ensures |vs| < |m.services| && forall v | v in vs :: Packable(v)
    ensures Bytes(m) == PackHdrs(MsgHdrs(m))
      + HeaderStart(SERVICES_HDR) + HeadBytes(ArrayHead(|m.services|)) + EncodeAll(vs)
  {
    hide Bytes, PackHdrs, EncodeAll, HeadBytes, HeaderStart, RegistrationHdrs, PackedNames, GoodHdr;
    RegistrationPacket(m);
    ReversedTwice(m.services);
    PackedNamesMeaning(Reversed(m.services));
    vs := Strs(PackedNames(Reversed(m.services)));
    assert MsgHdrs(m) == RegistrationHdrs(m.from, |m.services|);
  }

  /** With one, the array announces more names than follow, and stays unfinished. */
  lemma UnfinishedRegistration(m: Msg) returns (tail: bytes)
    requires GoodMsg(m) && m.Registration? && [] in m.services
    ensures GoodHdrs(MsgHdrs(m)) && Bytes(m) == PackHdrs(MsgHdrs(m)) + tail && Parse(tail) == Continue
  {
    hide Bytes, MsgHdrs, PackHdrs, EncodeAll, HeadBytes, HeaderStart, Parse, SERVICES_HDR;
    var n := |m.services|;
    var vs := UnfinishedParts(m);
    UnfinishedArray(vs, n);
    UnfinishedHeader(SERVICES_HDR, HeadBytes(ArrayHead(n)) + EncodeAll(vs));
    tail := HeaderStart(SERVICES_HDR) + (HeadBytes(ArrayHead(n)) + EncodeAll(vs));
    Regroup(PackHdrs(MsgHdrs(m)), HeaderStart(SERVICES_HDR), HeadBytes(ArrayHead(n)), EncodeAll(vs));
  }

  /** Every packet is the headers that can be read from it, and perhaps an unfinished one. */
  lemma Shape(m: Msg) returns (tail: bytes)
    requires GoodMsg(m)
    ensures GoodHdrs(MsgHdrs(m)) && Bytes(m) == PackHdrs(MsgHdrs(m)) + tail && Parse(tail) == Continue
  {
    hide Bytes, PackHdrs, MsgHdrs;
    EmptyBuffer();
    if m.Registration? && [] in m.services {
      tail := UnfinishedRegistration(m);
    } else {
      if m.Registration? {
        WholeRegistration(m);
      } else {
        WholeMsg(m);
      }
      tail := [];
      assert PackHdrs(MsgHdrs(m)) + [] == PackHdrs(MsgHdrs(m));
    }
  }

  /** Messages whose packets every receiver can take in: their lengths fit an int. */
  ghost predicate FitsFrame(m: Msg)
  {
    GoodMsg(m) && |Bytes(m)| < INT_LIMIT
  }

  // ---------- Header names within a message differ ----------

  lemma RequestNames(id: int, from: Endpoint, op: bytes, args: seq<Arg>)
    ensures DistinctNames(CallHdrs(id, from, op, args))
  {
    HeaderNames();
    hide REQUEST_TYPE_HDR, MESSAGE_ID_HDR, SENDER_ADDRESS_HDR, REPLY_PORT_HDR, OPERATION_HDR, SERVICE_PARAMS_HDR,
      GoodName, ArgValues;
  }

  lemma ResponseNames(id: int, op: bytes, result: Arg)
    ensures DistinctNames(ResponseHdrs(id, op) + [ReplyHdr(result)])
  {
    HeaderNames();
    hide REQUEST_TYPE_HDR, MESSAGE_ID_HDR, OPERATION_HDR, REPLY_HDR, GoodName, ArgValue;
  }

  lemma RegistrationNames(from: Endpoint, services: seq<bytes>)
    ensures DistinctNames(RegistrationHdrs(from, |services|) + [ServicesHdr(services)])
    ensures DistinctNames(RegistrationHdrs(from, |services|) + [])
  {
    HeaderNames();
    hide REQUEST_TYPE_HDR, SENDER_ADDRESS_HDR, REPLY_PORT_HDR, SERVICE_NAME_HDR, SERVICES_COUNT_HDR, SERVICES_HDR,
      GoodName, Strs;
  }

  /** Header i of a message is found under its name. */
  lemma Lookup(m: Msg, i: nat)
    requires GoodMsg(m) && i < |MsgHdrs(m)|
    ensures var h := MsgHdrs(m)[i];
      && HdrInt(Bytes(m), h.name) == Ok(if h.val.PosInt? then h.val.n else 0)
      && HdrStr(Bytes(m), h.name) == (if h.val.Str? then Ok(CStr(h.val.s)) else Abort)
      && (h.name == OPERATION_HDR ==> OpName(Bytes(m)) == Ok(if h.val.Str? then Some(CStr(h.val.s)) else None))
  {
    MsgHdrsGood(m);
    var hs := MsgHdrs(m);
    assert DistinctNames(hs) by {
      match m
      case Request(id, from, op, args) => RequestNames(id, from, op, args);
      case Response(id, op, result) => ResponseNames(id, op, result);
      case Registration(from, services) => RegistrationNames(from, services);
      case Ack => HeaderNames();
    }
    hide Bytes, PackHdrs, MsgHdrs, HdrInt, HdrStr, OpName, GoodHdrs;
    assert UniqueName(hs, i);
    var tail := Shape(m);
    LookupUnique(hs, tail, i);
  }

  /** get_req_type sees the first header. */
  lemma FirstHeader(hs: seq<Hdr>, tail: bytes)
    requires GoodHdrs(hs) && hs != [] && hs[0].name == REQUEST_TYPE_HDR && hs[0].val.PosInt?
    ensures ReqType(PackHdrs(hs) + tail) == Ok(hs[0].val.n)
  {
    hide Parse, Encode;
    HeadersExtract(hs);
    assert hs[0] in hs;
    var first, rest := Encode(Objs(hs)[0]), EncodeAll(Objs(hs)[1..]);
    EncodeParse(Objs(hs)[0], rest + tail);
    assert first + rest + tail == first + (rest + tail);
  }

  lemma MsgType(m: Msg)
    requires GoodMsg(m)
    ensures ReqType(Bytes(m)) == Ok(
      match m
      case Request(_, _, _, _) => SERVICE_REQUEST
      case Response(_, _, _) => SERVICE_REQUEST_RESPONSE
      case Registration(_, _) => SERVICE_REGISTRATION
      case Ack => SERVICE_REGISTRATION_ACK)
  {
    hide Bytes, PackHdrs, ReqType, GoodHdrs;
    var tail := Shape(m);
    FirstHeader(MsgHdrs(m), tail);
  }

  // ---------- Requests ----------

  lemma RequestLookups(m: Msg)
    requires GoodMsg(m) && m.Request?
    ensures HdrStr(Bytes(m), OPERATION_HDR) == Ok(m.op) && OpName(Bytes(m)) == Ok(Some(m.op))
    ensures HdrStr(Bytes(m), REPLY_PORT_HDR) == Ok(m.from.port)
    ensures HdrStr(Bytes(m), SENDER_ADDRESS_HDR) == Ok(m.from.address)
    ensures HdrInt(Bytes(m), MESSAGE_ID_HDR) == Ok(m.id)
  {
    hide HdrStr, HdrInt, OpName, Bytes, CStr;
    Lookup(m, 1);
    Lookup(m, 2);
    Lookup(m, 3);
    Lookup(m, 4);
    CStrIdentity(m.op);
    CStrIdentity(m.from.port);
    CStrIdentity(m.from.address);
  }

  function PendingOf(m: Msg): ClientReg
    requires m.Request?
  {
    ClientReg(m.from.address, m.from.port, m.op, m.id)
  }

  /** A request at the broker: one pending entry more; forwarded byte for byte to the routed server. */
  lemma RequestAtBroker(st: BrokerState, m: Msg)
    requires GoodMsg(m) && m.Request?
    ensures var st' := st.(pending := st.pending + [PendingOf(m)]);
      BrokerStep(st, Bytes(m)) ==
        match Route(st.svc, m.op)
        case Abort => (st', Abort)
        case Ok(None) => (st', Ok([]))
        case Ok(Some(reg)) =>
          match Destination(reg)
          case Abort => (st', Abort)
          case Ok(None) => (st', Ok([]))
          case Ok(Some(to)) => (st', Ok([Send(to.address, to.port, Bytes(m))]))
  {
    hide HdrStr, HdrInt, OpName, ReqType, Bytes, Route;
    MsgType(m);
    RequestLookups(m);
  }

  // ---------- Responses ----------

  lemma ResponseLookups(m: Msg)
    requires GoodMsg(m) && m.Response?
    ensures HdrStr(Bytes(m), OPERATION_HDR) == Ok(m.op)
    ensures HdrInt(Bytes(m), MESSAGE_ID_HDR) == Ok(m.id)
    ensures m.result.IntArg? ==> HdrInt(Bytes(m), REPLY_HDR) == Ok(if m.result.i >= 0 then m.result.i else 0)
    ensures m.result.StrArg? ==> HdrStr(Bytes(m), REPLY_HDR) == Ok(m.result.s)
  {
    hide HdrStr, HdrInt, OpName, Bytes, CStr;
    Lookup(m, 1);
    Lookup(m, 2);
    Lookup(m, 3);
    CStrIdentity(m.op);
    if m.result.StrArg? {
      CStrIdentity(m.result.s);
    }
  }

  /** A response at the broker: the first pending entry with its id and operation is the one it leaves for. */
  lemma ResponseAtBroker(st: BrokerState, m: Msg)
    requires GoodMsg(m) && m.Response?
    ensures var k := FirstMatch(st.pending, m.id, m.op);
      BrokerStep(st, Bytes(m)) ==
        if k == |st.pending| then (st, Abort)
        else (st.(pending := RemoveAt(st.pending, k)), Ok([Send(st.pending[k].address, st.pending[k].port, Bytes(m))]))
  {
    hide HdrStr, HdrInt, ReqType, Bytes;
    MsgType(m);
    ResponseLookups(m);
  }

  // ---------- Registrations ----------

  function ServiceAts(services: seq<bytes>): (ps: seq<Ptr>)
    ensures |ps| == |services| && forall i | 0 <= i < |services| :: ps[i] == At(services[i])
  {
    seq(|services|, i requires 0 <= i < |services| => At(services[i]))
  }

  /** A record with n services that were never written. */
  function UnwrittenRecord(from: Endpoint, n: nat): ServiceReg
  {
    ServiceReg(At(from.address), At(from.port), UninitServices(n), At(SERVICE_NAME))
  }

  /** A record with all its services. */
  function WrittenRecord(from: Endpoint, services: seq<bytes>): ServiceReg
  {
    ServiceReg(At(from.address), At(from.port), ServiceAts(services), At(SERVICE_NAME))
  }

  /** The record the broker keeps of a registration. */
  function RegOf(from: Endpoint, services: seq<bytes>): ServiceReg
  {
    if [] in services then UnwrittenRecord(from, |services|) else WrittenRecord(from, services)
  }

  lemma WrittenIf(from: Endpoint, services: seq<bytes>)
    ensures Written(RegOf(from, services)) <==> [] !in services
  {
    if [] in services {
      assert UninitServices(|services|)[0] in UninitServices(|services|);
    }
  }

  lemma RegistrationLookups(m: Msg)
    requires GoodMsg(m) && m.Registration?
    ensures HdrStr(Bytes(m), REPLY_PORT_HDR) == Ok(m.from.port)
    ensures HdrStr(Bytes(m), SENDER_ADDRESS_HDR) == Ok(m.from.address)
    ensures HdrInt(Bytes(m), MESSAGE_ID_HDR) == Ok(0)
  {
    hide HdrStr, HdrInt, OpName, CStr, Bytes;
    Lookup(m, 1);
    Lookup(m, 2);
    CStrIdentity(m.from.port);
    CStrIdentity(m.from.address);
    NoMessageId(m);
  }

  /** A registration carries no message id, so get_hdr_int answers 0. */
  lemma NoMessageId(m: Msg)
    requires GoodMsg(m) && m.Registration?
    ensures HdrInt(Bytes(m), MESSAGE_ID_HDR) == Ok(0)
  {
    HeaderNames();
    assert forall h | h in MsgHdrs(m) :: h.name != MESSAGE_ID_HDR;
    hide Bytes, HdrInt, HdrStr, OpName, PackHdrs, MsgHdrs, GoodHdrs;
    var tail := Shape(m);
    LookupMissing(MsgHdrs(m), tail, MESSAGE_ID_HDR);
  }

  /** Folding RegHdr over headers that have been read already. */
  function RegHdrs(reg: ServiceReg, hs: seq<Hdr>): Outcome<ServiceReg>
    decreases |hs|
  {
    if hs == [] then Ok(reg) else
    match RegHdr(reg, hs[0])
    case Abort => Abort
    case Ok(reg') => RegHdrs(reg', hs[1..])
  }

  lemma {:induction false} RegObjsRead(reg: ServiceReg, hs: seq<Hdr>)
    requires GoodHdrs(hs)
    ensures RegObjs(reg, Objs(hs)) == RegHdrs(reg, hs)
    decreases |hs|
  {
    hide RegHdr, ExtractHeader;
    if hs != [] {
      HeadersExtract(hs);
      assert Objs(hs)[1..] == Objs(hs[1..]);
      if RegHdr(reg, hs[0]).Ok? {
        RegObjsRead(RegHdr(reg, hs[0]).value, hs[1..]);
      }
    }
  }

  lemma RegHdrsAppend(reg: ServiceReg, hs: seq<Hdr>, h: Hdr)
    ensures RegHdrs(reg, hs + [h]) ==
      match RegHdrs(reg, hs)
      case Abort => Abort
      case Ok(reg') => RegHdr(reg', h)
    decreases |hs|
  {
    hide RegHdr;
    if hs == [] {
      assert hs + [h] == [h];
      assert [h][1..] == [];
    } else {
      assert (hs + [h])[1..] == hs[1..] + [h];
      if RegHdr(reg, hs[0]).Ok? {
        RegHdrsAppend(RegHdr(reg, hs[0]).value, hs[1..], h);
      }
    }
  }

  /** After the five headers the record is filled in, but for the services that are only counted. */
  lemma RegistrationCounted(from: Endpoint, count: nat)
    requires GoodEndpoint(from) && count < 0x8000_0000
    ensures RegHdrs(BLANK_REG, RegistrationHdrs(from, count)) ==
      Ok(ServiceReg(At(from.address), At(from.port), UninitServices(count), At(SERVICE_NAME)))
  {
    HeaderNames();
    hide REQUEST_TYPE_HDR, SENDER_ADDRESS_HDR, REPLY_PORT_HDR, SERVICE_NAME_HDR, SERVICES_COUNT_HDR, CStr,
      UninitServices, RegHdrs;
    CStrIdentity(from.address);
    CStrIdentity(from.port);
    CStrIdentity(SERVICE_NAME);
    var hs := RegistrationHdrs(from, count);
    var r2 := BLANK_REG.(address := At(from.address));
    var r3 := r2.(port := At(from.port));
    var r4 := r3.(service_name := At(SERVICE_NAME));
    RegHdrsStep(BLANK_REG, hs, 0);
    RegHdrsStep(BLANK_REG, hs, 1);
    RegHdrsStep(r2, hs, 2);
    RegHdrsStep(r3, hs, 3);
    RegHdrsStep(r4, hs, 4);
    RegHdrsEnd(r4.(services := UninitServices(count)), hs);
    assert hs[0..] == hs;
  }

  lemma RegHdrsStep(reg: ServiceReg, hs: seq<Hdr>, i: nat)
    requires i < |hs|
    ensures RegHdr(reg, hs[i]).Ok? ==> RegHdrs(reg, hs[i..]) == RegHdrs(RegHdr(reg, hs[i]).value, hs[i + 1..])
  {
    hide RegHdr;
    assert hs[i..][1..] == hs[i + 1..];
  }

  lemma RegHdrsEnd(reg: ServiceReg, hs: seq<Hdr>)
    ensures RegHdrs(reg, hs[|hs|..]) == Ok(reg)
  {
  }

  lemma UnpackRegistrationMsg(m: Msg)
    requires GoodMsg(m) && m.Registration?
    ensures UnpackRegistration(Bytes(m)) == if |Bytes(m)| < INT_LIMIT then Ok(RegOf(m.from, m.services)) else Abort
  {
    var hs, last := RegistrationHdrs(m.from, |m.services|), ServicesHdr(m.services);
    assert MsgHdrs(m) == if [] in m.services then hs else hs + [last];
    hide Bytes, ReadAll, PackHdrs, RegHdrs, RegHdr, RegObjs, RegistrationHdrs, MsgHdrs, ServicesHdr, GoodHdrs,
      WrittenRecord, UninitServices;
    var tail := Shape(m);
    HeadersRead(MsgHdrs(m), tail);
    RegObjsRead(BLANK_REG, MsgHdrs(m));
    RegHdrsAppend(BLANK_REG, hs, last);
    RegistrationCounted(m.from, |m.services|);
    ServicesArrive(m.from, m.services);
  }

  /** The array fills the space that the count allocated, to the last element. */
  lemma ServicesArrive(from: Endpoint, services: seq<bytes>)
    requires forall s | s in services :: IsC(s)
    ensures RegHdr(UnwrittenRecord(from, |services|), ServicesHdr(services)) == Ok(WrittenRecord(from, services))
  {
    ServicesStored(services);
    var n := |services|;
    assert ServiceAts(services) + UninitServices(n)[n..] == ServiceAts(services);
  }

  lemma ServicesStored(services: seq<bytes>)
    requires forall s | s in services :: IsC(s)
    ensures AllStrings(Strs(services))
    ensures ServicePtrs(Strs(services)) == ServiceAts(services)
  {
    hide CStr;
    forall i | 0 <= i < |services|
      ensures CStr(services[i]) == services[i]
    {
      assert services[i] in services;
      CStrIdentity(services[i]);
    }
  }

  /**
  A registration at the broker: appended whole, and acknowledged to the server it came from, if its
  length fits an int and no name is empty. The services of a table with an empty name are formatted
  into statements without ever having been written.
  */
  lemma RegistrationAtBroker(st: BrokerState, m: Msg)
    requires GoodMsg(m) && m.Registration?
    ensures BrokerStep(st, Bytes(m)) ==
      if |Bytes(m)| >= INT_LIMIT then (st, Abort)
      else (st.(svc := st.svc + [RegOf(m.from, m.services)]),
            if [] in m.services then Abort else Ok([Send(m.from.address, m.from.port, Bytes(Ack))]))
  {
    hide HdrStr, HdrInt, ReqType, UnpackRegistration, Bytes, RegOf, GoodHdrs, Written, AckBytes;
    WrittenIf(m.from, m.services);
    MsgType(m);
    RegistrationLookups(m);
    UnpackRegistrationMsg(m);
    AckPacket();
  }

  lemma AckPacket()
    ensures AckBytes(0) == Bytes(Ack)
  {
  }

  /** An acknowledgement gives the message id back. */
  lemma AckCarries(id: nat)
    requires IsInt32(id)
    ensures ReqType(AckBytes(id)) == Ok(SERVICE_REGISTRATION_ACK)
    ensures HdrInt(AckBytes(id), MESSAGE_ID_HDR) == Ok(id)
  {
    AckHdrsGood(id);
    HeaderNames();
    var hs := AckHdrs(id);
    assert UniqueName(hs, 1);
    hide ReqType, HdrInt, HdrStr, OpName, PackHdrs, GoodHdrs, UniqueName;
    EmptyBuffer();
    assert PackHdrs(hs) + [] == PackHdrs(hs);
    FirstHeader(hs, []);
    LookupUnique(hs, [], 1);
  }
}
