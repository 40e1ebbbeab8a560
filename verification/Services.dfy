/**
The premises of the theorems can be met: the seven operations of server/server_interface.h, a server
that implements and advertises them as server/server_interface.c does, and a broker.
*/
module Services {
  import Registrations
  import opened MsgPack
  import opened Common
  import opened Formats
  import opened Generators
  import opened Stubs
  import opened Client
  import opened Server
  import opened Messages
  import opened Packets
  import opened Rpc
  import opened Protocol

  // ---------- Messages of modest size fit their frame ----------

  ghost predicate Modest(v: Value)
  {
    match v
    case PosInt(_) => true
    case NegInt(_) => true
    case Str(s) => |s| <= 0x1_0000
    case Array(elems) => |elems| <= 0x80 && forall e | e in elems :: ModestScalar(e)
    case _ => false
  }

  ghost predicate ModestScalar(v: Value)
  {
    v.PosInt? || v.NegInt? || (v.Str? && |v.s| <= 0x1_0000)
  }

  lemma {:induction false} EncodeAllSize(vs: seq<Value>, k: nat)
    requires forall v | v in vs :: Packable(v) && |Encode(v)| <= k
    ensures |EncodeAll(vs)| <= k * |vs|
  {
    hide Encode;
    if vs != [] {
      assert vs[0] in vs;
      EncodeAllSize(vs[1..], k);
      assert k * |vs| == k + k * |vs[1..]|;
    }
  }

  lemma ScalarSize(v: Value)
    requires Packable(v) && ModestScalar(v)
    ensures |Encode(v)| <= 0x1_0010
  {
  }

  lemma ModestSize(h: Hdr)
    requires GoodHdr(h) && Modest(h.val)
    ensures |EncodeHdr(h)| <= 0x100_0000
  {
    HeaderEncoding(h.name, h.val);
    assert |HeaderStart(h.name)| <= 100;
    match h.val
    case Array(elems) =>
      forall e | e in elems
        ensures Packable(e) && |Encode(e)| <= 0x1_0010
      {
        ScalarSize(e);
      }
      EncodeAllSize(elems, 0x1_0010);
      assert |Encode(h.val)| <= 5 + |EncodeAll(elems)|;
    case _ => ScalarSize(h.val);
  }

  lemma ModestFits(m: Msg)
    requires GoodMsg(m) && (m.Registration? ==> [] !in m.services)
    requires |MsgHdrs(m)| <= 6 && forall h | h in MsgHdrs(m) :: Modest(h.val)
    ensures FitsFrame(m)
  {
    hide Bytes, Encode, MsgHdrs, Modest;
    var hs := MsgHdrs(m);
    if m.Registration? {
      WholeRegistration(m);
    } else {
      WholeMsg(m);
    }
    forall v | v in Objs(hs)
      ensures Packable(v) && |Encode(v)| <= 0x100_0000
    {
      var i :| 0 <= i < |hs| && Objs(hs)[i] == v;
      assert hs[i] in hs;
      ModestSize(hs[i]);
    }
    EncodeAllSize(Objs(hs), 0x100_0000);
  }

  ghost predicate ModestArg(a: Arg)
  {
    a.StrArg? ==> |a.s| <= 0x1_0000
  }

  lemma RequestFits(id: int, from: Endpoint, op: bytes, args: seq<Arg>)
    requires GoodMsg(Request(id, from, op, args))
    requires |from.address| <= 0x1_0000 && |from.port| <= 0x1_0000 && |op| <= 0x1_0000
    requires |args| <= 0x80 && forall a | a in args :: ModestArg(a)
    ensures FitsFrame(Request(id, from, op, args))
  {
    forall v | v in ArgValues(args)
      ensures ModestScalar(v)
    {
      var i :| 0 <= i < |args| && ArgValues(args)[i] == v;
      assert ModestArg(args[i]);
    }
    ModestFits(Request(id, from, op, args));
  }

  lemma ResponseFits(id: int, op: bytes, result: Arg)
    requires GoodMsg(Response(id, op, result)) && |op| <= 0x1_0000 && ModestArg(result)
    ensures FitsFrame(Response(id, op, result))
  {
    ModestFits(Response(id, op, result));
  }

  // ---------- An answer no longer than its request ----------

  lemma EncodedHdr(name: bytes, val: Value)
    requires GoodHdr(Hdr(name, val))
    ensures |EncodeHdr(Hdr(name, val))| == |HeaderStart(name)| + |Encode(val)|
  {
    HeaderEncoding(name, val);
  }

  lemma HeaderStartSize(name: bytes)
    requires |name| < 32
    ensures |HeaderStart(name)| == 2 + |name|
  {
  }

  lemma SmallSize(v: Value)
    requires Packable(v) && (v.Str? || v == PosInt(0) || v == PosInt(1))
    ensures 1 <= |Encode(v)|
    ensures v.Str? ==> |v.s| <= |Encode(v)| <= |v.s| + 5
    ensures !v.Str? ==> |Encode(v)| == 1
  {
  }

  /** The packets of a request and of its answer, header by header. */
  lemma RequestSize(m: Msg)
    requires GoodMsg(m) && m.Request?
    ensures GoodHdr(Hdr(MESSAGE_ID_HDR, PosInt(m.id))) && GoodHdr(Hdr(OPERATION_HDR, Str(m.op)))
    ensures |Bytes(m)| >= 54 + |EncodeHdr(Hdr(MESSAGE_ID_HDR, PosInt(m.id)))| + |EncodeHdr(Hdr(OPERATION_HDR,
      Str(m.op)))|
      + |EncodeAll(ArgValues(m.args))|
  {
    HeaderNames();
    WholeMsg(m);
    var hs := RequestHdrs(m.id, m.from, m.op);
    CallHdrsGood(m.id, m.from, m.op, m.args);
    hide Encode, EncodeAll, PackHdrs, HeaderStart, HeadBytes, EncodeHdr, GoodHdr, Bytes;
    LastHeader(hs, ParamsHdr(m.args));
    PackFive(hs);
    RequestHeaderSizes(m);
    ParamsSize(m.args);
  }

  lemma RequestHeaderSizes(m: Msg)
    requires GoodMsg(m) && m.Request? && GoodHdrs(RequestHdrs(m.id, m.from, m.op))
    ensures var hs := RequestHdrs(m.id, m.from, m.op);
      && GoodHdr(hs[0]) && GoodHdr(hs[2]) && GoodHdr(hs[3])
      && |EncodeHdr(hs[0])| == 15 && |EncodeHdr(hs[2])| >= 17 && |EncodeHdr(hs[3])| >= 13
  {
    HeaderNames();
    hide Encode, HeaderStart, EncodeHdr, REQUEST_TYPE_HDR, SENDER_ADDRESS_HDR, REPLY_PORT_HDR;
    var hs := RequestHdrs(m.id, m.from, m.op);
    assert hs[0] in hs && hs[2] in hs && hs[3] in hs;
    EncodedHdr(hs[0].name, hs[0].val);
    EncodedHdr(hs[2].name, hs[2].val);
    EncodedHdr(hs[3].name, hs[3].val);
    HeaderStartSize(REQUEST_TYPE_HDR);
    HeaderStartSize(SENDER_ADDRESS_HDR);
    HeaderStartSize(REPLY_PORT_HDR);
    SmallSize(hs[0].val);
    SmallSize(hs[2].val);
    SmallSize(hs[3].val);
  }

  lemma ParamsSize(args: seq<Arg>)
    requires |args| < 0x1_0000_0000 && GoodHdr(ParamsHdr(args))
    ensures |EncodeHdr(ParamsHdr(args))| >= 9 + |EncodeAll(ArgValues(args))|
  {
    HeaderNames();
    ParamsEncoding(args);
    hide EncodeAll, HeaderStart, SERVICE_PARAMS_HDR;
    HeaderStartSize(SERVICE_PARAMS_HDR);
  }

  lemma AnswerSize(id: int, op: bytes, result: bytes)
    requires 0 <= id < 0x8000_0000 && IsC(op) && IsC(result)
    ensures GoodHdr(Hdr(MESSAGE_ID_HDR, PosInt(id))) && GoodHdr(Hdr(OPERATION_HDR, Str(op)))
    ensures |Bytes(Response(id, op, StrArg(result)))| <=
      27 + |EncodeHdr(Hdr(MESSAGE_ID_HDR, PosInt(id)))| + |EncodeHdr(Hdr(OPERATION_HDR, Str(op)))| + |result|
  {
    HeaderNames();
    var m := Response(id, op, StrArg(result));
    WholeMsg(m);
    var hs, last := ResponseHdrs(id, op), ReplyHdr(StrArg(result));
    ResponseHdrsGood(id, op);
    hide Encode, EncodeAll, PackHdrs, HeaderStart, HeadBytes, EncodeHdr, Bytes, REQUEST_TYPE_HDR, MESSAGE_ID_HDR,
      OPERATION_HDR, REPLY_HDR;
    LastHeader(hs, last);
    PackThree(hs);
    EncodedHdr(hs[0].name, hs[0].val);
    EncodedHdr(last.name, last.val);
    HeaderStartSize(REQUEST_TYPE_HDR);
    HeaderStartSize(REPLY_HDR);
    SmallSize(hs[0].val);
    SmallSize(last.val);
  }

  /** A string result no longer than the encoded arguments fits whenever the request does. */
  lemma AnswerFits(m: Msg, result: bytes)
    requires FitsFrame(m) && m.Request? && IsC(result) && |result| <= |EncodeAll(ArgValues(m.args))|
    ensures FitsFrame(Response(m.id, m.op, StrArg(result)))
  {
    hide EncodeAll, EncodeHdr, Bytes, GoodHdr;
    RequestSize(m);
    AnswerSize(m.id, m.op, result);
  }

  // ---------- The operations ----------

  const GET_SERVER_DATE: bytes := "getServerDate"
  const ADD: bytes := "add"
  const ECHO: bytes := "echo"
  const GET_BROKER_NAME: bytes := "getBrokerName"
  const SAY_HELLO: bytes := "sayHello"
  const SAY_DOG: bytes := "sayDog"
  const DIFFERENCE: bytes := "diffirence"

  function GetServerDate(): Sig
  {
    Sig(CharPtr, GET_SERVER_DATE, [])
  }

  function Add(): Sig
  {
    Sig(CInt, ADD, [Param(CInt, "one"), Param(CInt, "two")])
  }

  function Echo(): Sig
  {
    Sig(CharPtr, ECHO, [Param(CharPtr, "message")])
  }

  function GetBrokerName(): Sig
  {
    Sig(CharPtr, GET_BROKER_NAME, [])
  }

  function SayHello(): Sig
  {
    Sig(CharPtr, SAY_HELLO, [Param(CInt, "age"), Param(CharPtr, "name")])
  }

  function SayDog(): Sig
  {
    Sig(CharPtr, SAY_DOG, [Param(CharPtr, "one"), Param(CharPtr, "two"), Param(CharPtr, "three"),
      Param(CharPtr, "four")])
  }

  function Difference(): Sig
  {
    Sig(CInt, DIFFERENCE, [Param(CInt, "one"), Param(CInt, "two")])
  }

  function Iface(): seq<Sig>
  {
    [GetServerDate(), Add(), Echo(), GetBrokerName(), SayHello(), SayDog(), Difference()]
  }

  /** The declarations of server/server_interface.h, in order. */
  lemma HeaderDeclares()
    ensures Iface() == [
      Sig(CharPtr, "getServerDate", []),
      Sig(CInt, "add", [Param(CInt, "one"), Param(CInt, "two")]),
      Sig(CharPtr, "echo", [Param(CharPtr, "message")]),
      Sig(CharPtr, "getBrokerName", []),
      Sig(CharPtr, "sayHello", [Param(CInt, "age"), Param(CharPtr, "name")]),
      Sig(CharPtr, "sayDog", [Param(CharPtr, "one"), Param(CharPtr, "two"), Param(CharPtr, "three"),
        Param(CharPtr, "four")]),
      Sig(CInt, "diffirence", [Param(CInt, "one"), Param(CInt, "two")])]
  {
  }

  /** The table of services. */
  function Names(): seq<bytes>
  {
    [GET_BROKER_NAME, ECHO, ADD, SAY_HELLO, GET_SERVER_DATE, SAY_DOG, DIFFERENCE]
  }

  lemma NamesAreC()
    ensures IsC(GET_SERVER_DATE) && IsC(ADD) && IsC(ECHO) && IsC(GET_BROKER_NAME)
    ensures IsC(SAY_HELLO) && IsC(SAY_DOG) && IsC(DIFFERENCE)
    ensures |GET_SERVER_DATE| == |GET_BROKER_NAME| == 13 && |ADD| == 3 && |ECHO| == 4 && |SAY_HELLO| == 8
    ensures |SAY_DOG| == 6 && |DIFFERENCE| == 10 && GET_SERVER_DATE != GET_BROKER_NAME
  {
    assert GET_SERVER_DATE[3] != GET_BROKER_NAME[3];
  }

  lemma NamesGood()
    ensures forall n | n in Names() :: IsC(n) && 0 < |n| <= 13
  {
    hide GET_SERVER_DATE, ADD, ECHO, GET_BROKER_NAME, SAY_HELLO, SAY_DOG, DIFFERENCE, IsC;
    NamesAreC();
  }

  // ---------- What they compute ----------

  const DATE: bytes := "20 jan 2012"
  const BROKER_NAME: bytes := "broker v1"
  const GREETING: bytes := "sayHello()"

  lemma TextsAreC()
    ensures IsC(DATE) && IsC(BROKER_NAME) && IsC(GREETING) && IsC([])
    ensures |DATE| == 11 && |BROKER_NAME| == 9 && |GREETING| == 10
  {
  }

  /** A result that does not fit an int is undefined in C; 0 stands for it here. */
  function IntResult(i: int): Arg
  {
    IntArg(if IsInt32(i) then i else 0)
  }

  /** STR_Reverse. */
  function Backwards(s: bytes): (r: bytes)
    ensures |r| == |s| && forall i | 0 <= i < |s| :: r[i] == s[|s| - 1 - i]
    ensures IsC(s) ==> IsC(r)
  {
    seq(|s|, i requires 0 <= i < |s| => s[|s| - 1 - i])
  }

  /** STR_Join, over all arguments. */
  function Joined(args: seq<Arg>): (r: bytes)
    ensures '\0' !in r
  {
    if args == [] then [] else (if args[0].StrArg? then args[0].s else []) + Joined(args[1..])
  }

  /** The services. Strings too long for any request are joined to nothing. */
  function Service(op: bytes, args: seq<Arg>): Arg
  {
    TextsAreC();
    if op == ADD && |args| == 2 && args[0].IntArg? && args[1].IntArg? then IntResult(args[0].i + args[1].i)
    else if op == DIFFERENCE && |args| == 2 && args[0].IntArg? && args[1].IntArg? then IntResult(args[1].i - args[0].i)
    else if op == ECHO && |args| == 1 && args[0].StrArg? then StrArg(Backwards(args[0].s))
    else if op == SAY_DOG then StrArg(if |Joined(args)| < INT_LIMIT then Joined(args) else [])
    else if op == GET_SERVER_DATE then StrArg(DATE)
    else if op == GET_BROKER_NAME then StrArg(BROKER_NAME)
    else StrArg(GREETING)
  }

  /** Strings are joined in order; ints add nothing. */
  lemma {:induction false} JoinedAppend(a: seq<Arg>, b: seq<Arg>)
    ensures Joined(a + b) == Joined(a) + Joined(b)
  {
    if a == [] {
      assert a + b == b;
    } else {
      assert (a + b)[1..] == a[1..] + b;
      JoinedAppend(a[1..], b);
    }
  }

  lemma JoinedOne(a: Arg)
    ensures Joined([]) == [] && Joined([a]) == if a.StrArg? then a.s else []
  {
    assert [a][1..] == [];
  }

  function Strings4(one: bytes, two: bytes, three: bytes, four: bytes): seq<Arg>
    requires IsC(one) && IsC(two) && IsC(three) && IsC(four)
  {
    [StrArg(one), StrArg(two), StrArg(three), StrArg(four)]
  }

  lemma JoinedFour(one: bytes, two: bytes, three: bytes, four: bytes)
    requires IsC(one) && IsC(two) && IsC(three) && IsC(four)
    ensures Joined(Strings4(one, two, three, four)) == one + two + three + four
  {
    hide Joined, IsC;
    var a, b, c, d := StrArg(one), StrArg(two), StrArg(three), StrArg(four);
    assert [a] + [b] + [c] + [d] == Strings4(one, two, three, four);
    JoinedAppend([a] + [b] + [c], [d]);
    JoinedAppend([a] + [b], [c]);
    JoinedAppend([a], [b]);
    JoinedOne(a);
    JoinedOne(b);
    JoinedOne(c);
    JoinedOne(d);
  }

  /** What the seven services compute (server/server_interface.c). */
  lemma TextResults(args: seq<Arg>)
    ensures IsC("20 jan 2012") && IsC("broker v1") && IsC("sayHello()")
    ensures Service("getServerDate", args) == StrArg("20 jan 2012")
    ensures Service("getBrokerName", args) == StrArg("broker v1")
    ensures Service("sayHello", args) == StrArg("sayHello()")
  {
    hide Joined;
    TextsAreC();
    NamesAreC();
  }

  lemma SumResults(one: int, two: int)
    requires IsInt32(one) && IsInt32(two)
    ensures IsInt32(one + two) ==> Service("add", [IntArg(one), IntArg(two)]) == IntArg(one + two)
    ensures IsInt32(two - one) ==> Service("diffirence", [IntArg(one), IntArg(two)]) == IntArg(two - one)
  {
    hide Joined;
    NamesAreC();
  }

  lemma EchoResult(s: bytes)
    requires IsC(s)
    ensures Service("echo", [StrArg(s)]) == StrArg(Backwards(s))
  {
    hide Joined;
    NamesAreC();
  }

  lemma DogResult(one: bytes, two: bytes, three: bytes, four: bytes)
    requires IsC(one) && IsC(two) && IsC(three) && IsC(four) && IsC(one + two + three + four)
    ensures Service("sayDog", Strings4(one, two, three, four)) == StrArg(one + two + three + four)
  {
    hide Joined;
    NamesAreC();
    JoinedFour(one, two, three, four);
  }

  /** Four strings of a request that fits are short enough to be joined. */
  lemma JoinedFits(m: Msg, one: bytes, two: bytes, three: bytes, four: bytes)
    requires IsC(one) && IsC(two) && IsC(three) && IsC(four)
    requires FitsFrame(m) && m.Request? && m.args == Strings4(one, two, three, four)
    ensures IsC(one + two + three + four)
  {
    hide EncodeAll, EncodeHdr, Bytes, GoodHdr, Joined;
    RequestSize(m);
    JoinedSize(m.args);
    JoinedFour(one, two, three, four);
  }

  lemma {:induction false} JoinedSize(args: seq<Arg>)
    ensures |Joined(args)| <= |EncodeAll(ArgValues(args))|
  {
    if args != [] {
      hide Encode;
      JoinedSize(args[1..]);
      assert ArgValues(args)[1..] == ArgValues(args[1..]);
      if args[0].StrArg? {
        SmallSize(Str(args[0].s));
      }
    }
  }

  // ---------- The server ----------

  function OwnServer(ep: Endpoint): ServerCfg
  {
    ServerCfg(ep, Names(), Iface(), Service)
  }

  function OwnCfg(broker: Address, ep: Endpoint): Cfg
  {
    Cfg(broker, Iface(), [OwnServer(ep)])
  }

  predicate ModestEndpoint(ep: Endpoint)
  {
    GoodEndpoint(ep) && |ep.address| <= 0x1_0000 && |ep.port| <= 0x1_0000
  }

  /** A short name that generated code does not use. */
  predicate Plain(name: bytes)
  {
    IsWord(name) && ',' !in name && |name| <= 7 && name !in {"pkt", "sbuf", "result", "Packet", "params"}
  }

  lemma PlainIsFree(name: bytes)
    requires Plain(name)
    ensures !IsTaken(name) && name != "get_hdr_int" && name != "get_hdr_str"
    ensures name !in {MESSAGE_ID_VAR, OPERATION_VAR, BROKER_ADDRESS_VAR, BROKER_PORT_VAR, WAIT_PORT_VAR, PARAMS_VAR}
  {
    assert |"response"| == 8 && |"msgpack_sbuffer"| == 15 && |"msgpack_sbuffer_destroy"| == 23 && |"send_req"| == 8;
    assert |"unpack_data"| == 11 && |"pack_client_response_data"| == 25 && |"pack_client_request_data"| == 24;
    assert |"send_and_receive"| == 16 && |"get_hdr_int"| == 11 && |"get_hdr_str"| == 11;
    assert |MESSAGE_ID_VAR| == 10 && |OPERATION_VAR| == 9 && |BROKER_ADDRESS_VAR| == 14 && |BROKER_PORT_VAR| == 11;
    assert |WAIT_PORT_VAR| == 18;
  }

  lemma PlainNames()
    ensures Plain("one") && Plain("two") && Plain("three") && Plain("four")
    ensures Plain("message") && Plain("age") && Plain("name")
  {
    assert "one"[0] == 'o' && "two"[0] == 't' && "age"[0] == 'a' && "name"[0] == 'n' && "four"[0] == 'f';
    assert |"three"| == 5 && |"message"| == 7;
  }

  lemma OpNamesFree()
    ensures forall n | n in Names() :: !IsHidden(n)
  {
    assert |GET_SERVER_DATE| == |GET_BROKER_NAME| == 13 && |ADD| == 3 && |ECHO| == 4 && |SAY_HELLO| == 8;
    assert |SAY_DOG| == 6 && |DIFFERENCE| == 10;
    assert ADD[0] == 'a' && SAY_HELLO[0] == 's' && DIFFERENCE[0] == 'd' && SAY_DOG[0] == 's';
    assert |"verbose"| == 7 && |"response"| == 8 && |"pkt"| == 3;
    assert |MESSAGE_ID_VAR| == 10 && |OPERATION_VAR| == 9 && |BROKER_ADDRESS_VAR| == 14 && |BROKER_PORT_VAR| == 11;
    assert |WAIT_PORT_VAR| == 18 && |PARAMS_VAR| == 6 && PARAMS_VAR[0] == 'p' && MESSAGE_ID_VAR[0] == 'm';
  }

  ghost predicate Usable(g: Sig)
  {
    GoodSig(g) && ServerClear(g) && ClientClear(g)
  }

  lemma PlainSig(g: Sig)
    requires g.name in Names() && |g.params| <= 4 && forall p | p in g.params :: Plain(p.name) && p.name != g.name
    requires forall i, j | 0 <= i < j < |g.params| :: g.params[i].name != g.params[j].name
    ensures Usable(g)
  {
    hide IsTaken, IsHidden, IsC, Names, Plain;
    NamesGood();
    OpNamesFree();
    forall p | p in g.params
      ensures !IsTaken(p.name) && p.name != AccessorName(g.ret) && IsWord(p.name) && ',' !in p.name
      ensures p.name !in {MESSAGE_ID_VAR, OPERATION_VAR, BROKER_ADDRESS_VAR, BROKER_PORT_VAR, WAIT_PORT_VAR, PARAMS_VAR}
    {
      PlainIsFree(p.name);
      PlainWord(p.name);
    }
  }

  lemma PlainWord(name: bytes)
    requires Plain(name)
    ensures IsWord(name) && ',' !in name
  {
  }

  lemma DateSigs()
    ensures Usable(GetServerDate()) && Usable(GetBrokerName())
  {
    hide Plain, Usable;
    PlainSig(GetServerDate());
    PlainSig(GetBrokerName());
  }

  lemma SumSigs()
    ensures Usable(Add()) && Usable(Difference())
  {
    hide Plain, Usable;
    PlainNames();
    assert "one"[0] != "two"[0] && ADD[0] == 'a' && "one"[0] == 'o' && "two"[0] == 't' && |DIFFERENCE| == 10;
    PlainSig(Add());
    PlainSig(Difference());
  }

  lemma EchoSig()
    ensures Usable(Echo())
  {
    hide Plain, Usable;
    PlainNames();
    assert |"message"| != |ECHO|;
    PlainSig(Echo());
  }

  lemma HelloSig()
    ensures Usable(SayHello())
  {
    hide Plain, Usable;
    PlainNames();
    assert |"age"| == 3 && |"name"| == 4 && |SAY_HELLO| == 8;
    PlainSig(SayHello());
  }

  lemma DogSig()
    ensures Usable(SayDog())
  {
    hide Plain, Usable;
    PlainNames();
    assert "one"[0] != "two"[0] && |"one"| == |"two"| == 3 && |"three"| == 5 && |"four"| == 4 && |SAY_DOG| == 6;
    PlainSig(SayDog());
  }

  lemma OwnSigs()
    ensures forall g | g in Iface() :: Usable(g)
  {
    hide Usable, GetServerDate, Add, Echo, GetBrokerName, SayHello, SayDog, Difference;
    DateSigs();
    SumSigs();
    EchoSig();
    HelloSig();
    DogSig();
  }

  lemma IfaceNamesDiffer()
    ensures forall i, j | 0 <= i < j < |Iface()| :: Iface()[i].name != Iface()[j].name
  {
    hide GET_SERVER_DATE, ADD, ECHO, GET_BROKER_NAME, SAY_HELLO, SAY_DOG, DIFFERENCE, IsC;
    NamesAreC();
  }

  lemma OwnIface()
    ensures GoodIface(Iface())
  {
    hide Iface, GoodSig, ServerClear, ClientClear;
    OwnSigs();
    IfaceNamesDiffer();
  }

  lemma OwnRegistration(ep: Endpoint)
    requires ModestEndpoint(ep)
    ensures Registrations.GoodTable(ep, Names()) && [] !in Names()
    ensures FitsFrame(RegMsg(OwnServer(ep)))
  {
    hide Names, MsgHdrs, FitsFrame, Reversed, Modest;
    NamesGood();
    NamesCount();
    ReversedTwice(Names());
    var m := RegMsg(OwnServer(ep));
    NamesModest(m);
    ModestFits(m);
  }

  lemma NamesCount()
    ensures |Names()| == 7
  {
  }

  /** Last one first. */
  ghost function NamesOnWire(): (names: seq<bytes>)
    ensures ShortNames(names)
  {
    ["diffirence", "sayDog", "getServerDate", "sayHello", "add", "echo", "getBrokerName"]
  }

  /** The packet with which the repository's server registers, to the byte. */
  lemma OwnRegistrationPacket(ep: Endpoint)
    requires GoodEndpoint(ep) && |ep.address| < 32 && |ep.port| < 32
    ensures GoodMsg(RegMsg(OwnServer(ep)))
    ensures Bytes(RegMsg(OwnServer(ep))) ==
      Pair("request-type", Hex([0x02]))
      + Pair("sender-address", ShortStr(ep.address)) + Pair("reply-port", ShortStr(ep.port))
      + Pair("service-name", Hex([0xae]) + "theServiceName") + Pair("services-count", Hex([0x07]))
      + Pair("services", Hex([0x97]) + ShortStrs(NamesOnWire()))
  {
    OwnMessage(ep);
    hide Bytes, Pair, ShortStr, ShortStrs, Names, NamesOnWire, Reversed, RegMsg, GoodMsg;
    OwnServicesReversed();
    KnownRegistration(RegMsg(OwnServer(ep)));
  }

  lemma OwnMessage(ep: Endpoint)
    requires ModestEndpoint(ep)
    ensures GoodMsg(RegMsg(OwnServer(ep))) && RegMsg(OwnServer(ep)) == Registration(ep, Reversed(Names()))
    ensures |Reversed(Names())| == 7
  {
    hide FitsFrame, GoodMsg, Names, Iface;
    OwnRegistration(ep);
    FitsGood(RegMsg(OwnServer(ep)));
    NamesCount();
  }

  lemma OwnServicesReversed()
    ensures Reversed(Names()) == NamesOnWire()
  {
  }

  lemma NamesModest(m: Msg)
    requires GoodMsg(m) && m.Registration? && |m.services| == 7 && forall s | s in m.services :: 0 < |s| <= 13
    requires |m.from.address| <= 0x1_0000 && |m.from.port| <= 0x1_0000
    ensures [] !in m.services && |MsgHdrs(m)| <= 6 && forall h | h in MsgHdrs(m) :: Modest(h.val)
  {
    forall v | v in Strs(m.services)
      ensures ModestScalar(v)
    {
      var i :| 0 <= i < |m.services| && Strs(m.services)[i] == v;
      assert m.services[i] in m.services;
    }
  }

  /** Two operations compute ints, from two ints; all others strings. */
  lemma ServiceKind(op: bytes, args: seq<Arg>)
    ensures Service(op, args).IntArg? <==>
      (op == ADD || op == DIFFERENCE) && |args| == 2 && args[0].IntArg? && args[1].IntArg?
  {
    hide GET_SERVER_DATE, ADD, ECHO, GET_BROKER_NAME, SAY_HELLO, SAY_DOG, DIFFERENCE, Joined, DATE, BROKER_NAME,
      GREETING;
  }

  lemma SigKind(g: Sig)
    requires g in Iface()
    ensures g.ret.CInt? <==> g.name == ADD || g.name == DIFFERENCE
    ensures g.ret.CInt? ==> |g.params| == 2 && g.params[0].ty.CInt? && g.params[1].ty.CInt?
  {
    hide GET_SERVER_DATE, ADD, ECHO, GET_BROKER_NAME, SAY_HELLO, SAY_DOG, DIFFERENCE, IsC;
    NamesAreC();
  }

  /** A service of the right type for every typed call. */
  lemma ServiceTyped(g: Sig, args: seq<Arg>)
    requires g in Iface() && Typed(g, args)
    ensures OfType(Service(g.name, args), g.ret)
  {
    hide Service, Iface, ADD, DIFFERENCE;
    SigKind(g);
    ServiceKind(g.name, args);
    if g.ret.CInt? {
      assert OfType(args[0], g.params[0].ty) && OfType(args[1], g.params[1].ty);
    }
  }

  /** Results are short, or made of the arguments. */
  lemma ServiceSize(op: bytes, args: seq<Arg>)
    ensures var r := Service(op, args);
      ModestArg(r) || (r.StrArg? && |r.s| <= |EncodeAll(ArgValues(args))|)
  {
    hide GET_SERVER_DATE, ADD, ECHO, GET_BROKER_NAME, SAY_HELLO, SAY_DOG, DIFFERENCE, Joined, DATE, BROKER_NAME,
      GREETING;
    hide EncodeAll;
    TextsAreC();
    JoinedSize(args);
    if |args| == 1 && args[0].StrArg? {
      EchoSize(args);
    }
  }

  /** Its answer fits whenever the request does. */
  lemma ServiceFits(g: Sig, q: Msg)
    requires g in Iface() && q.Request? && FitsFrame(q) && q.op == g.name
    ensures FitsFrame(Response(q.id, g.name, Service(g.name, q.args)))
  {
    hide FitsFrame, Service, EncodeAll, Names, Iface;
    NamesGood();
    OpInNames(g);
    FitsGood(q);
    ServiceSize(g.name, q.args);
    var result := Service(g.name, q.args);
    if ModestArg(result) {
      ResponseFits(q.id, g.name, result);
    } else {
      AnswerFits(q, result.s);
    }
  }

  lemma OpInNames(g: Sig)
    requires g in Iface()
    ensures g.name in Names()
  {
  }

  lemma EchoSize(args: seq<Arg>)
    requires |args| == 1 && args[0].StrArg?
    ensures |args[0].s| <= |EncodeAll(ArgValues(args))|
  {
    JoinedSize(args);
    assert Joined(args[1..]) == [];
  }

  lemma FitsGood(m: Msg)
    requires FitsFrame(m)
    ensures GoodMsg(m)
  {
  }

  /** The repository's own server meets every premise of the theorems. */
  lemma OwnCfgIsValid(broker: Address, ep: Endpoint)
    requires ModestEndpoint(ep) && ep != broker
    ensures ValidCfg(OwnCfg(broker, ep))
  {
    hide FitsFrame, Service, GoodIface, Iface, Names, Reversed, RegMsg, Typed, OfType;
    OwnIface();
    OwnRegistration(ep);
    forall g, args | g in Iface() && Typed(g, args)
      ensures OfType(Service(g.name, args), g.ret)
    {
      ServiceTyped(g, args);
    }
    forall g, q: Msg | g in Iface() && q.Request? && FitsFrame(q) && q.op == g.name && Typed(g, q.args)
      ensures FitsFrame(Response(q.id, g.name, Service(g.name, q.args)))
    {
      ServiceFits(g, q);
    }
    assert GoodServer(OwnCfg(broker, ep).header, OwnServer(ep));
  }
}
