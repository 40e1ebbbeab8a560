/**
The packets of the protocol, byte by byte (common/protocol.h:1-80).
*/
module Packets {
  import opened MsgPack
  import opened Common
  import opened Formats
  import opened Client
  import opened Server
  import opened Broker
  import opened Messages

  /** A map of one pair: a name of fewer than 32 characters and a value. */
  function Pair(name: bytes, val: bytes): bytes
    requires |name| < 32
  {
    Hex([0x81, 0xa0 + |name|]) + name + val
  }

  /** Every header is packed as such a map. */
  lemma PairLayout(name: bytes, val: Value)
    requires |name| < 32 && Packable(val)
    ensures Encode(Header(name, val)) == Pair(name, Encode(val))
  {
    hide Encode, Header;
    HeaderLayout(name, val);
    ShortText(name);
    TwoBytesFirst(0x81, 0xa0 + |name|, name, Encode(val));
  }

  lemma TwoBytesFirst(m: nat, n: nat, a: bytes, b: bytes)
    requires m < 256 && n < 256
    ensures Hex([m]) + (Hex([n]) + a) + b == Hex([m, n]) + a + b
  {
  }

  /** A string of fewer than 32 characters. */
  function ShortStr(s: bytes): bytes
    requires |s| < 32
  {
    Hex([0xa0 + |s|]) + s
  }

  lemma ShortText(s: bytes)
    requires |s| < 32
    ensures Encode(Str(s)) == ShortStr(s)
  {
    EncodedStr(s);
  }

  // ---------- The headers of each kind of packet ----------

  lemma HeaderLists(id: nat, from: Endpoint, op: bytes, count: nat)
    ensures RequestHdrs(id, from, op) ==
      [Hdr("request-type", PosInt(0)), Hdr("message-id", PosInt(id)), Hdr("sender-address", Str(from.address)),
        Hdr("reply-port", Str(from.port)), Hdr("op", Str(op))]
    ensures ResponseHdrs(id, op) ==
      [Hdr("request-type", PosInt(1)), Hdr("message-id", PosInt(id)), Hdr("op", Str(op))]
    ensures RegistrationHdrs(from, count) ==
      [Hdr("request-type", PosInt(2)), Hdr("sender-address", Str(from.address)), Hdr("reply-port", Str(from.port)),
        Hdr("service-name", Str("theServiceName")), Hdr("services-count", PosInt(count))]
    ensures AckHdrs(id) == [Hdr("request-type", PosInt(3)), Hdr("message-id", PosInt(id))]
  {
  }

  lemma LastHeaders(args: seq<Arg>, result: Arg, services: seq<bytes>)
    ensures ParamsHdr(args) == Hdr("params", Array(ArgValues(args)))
    ensures ReplyHdr(result) == Hdr("reply", ArgValue(result))
    ensures ServicesHdr(services) == Hdr("services", Array(Strs(services)))
  {
  }

  lemma TypeByte(t: nat)
    requires t < 0x80
    ensures Encode(PosInt(t)) == Hex([t])
  {
    EncodedInt(t);
  }

  function Field(h: Hdr): bytes
    requires |h.name| < 32 && Packable(h.val)
  {
    Pair(h.name, Encode(h.val))
  }

  lemma Layout(h: Hdr)
    requires GoodHdr(h)
    ensures EncodeHdr(h) == Field(h)
  {
    PairLayout(h.name, h.val);
  }

  lemma TwoFields(a: Hdr, b: Hdr)
    requires GoodHdrs([a, b])
    ensures GoodHdr(a) && GoodHdr(b) && PackHdrs([a, b]) == Field(a) + Field(b)
  {
    hide EncodeHdr, PackHdrs, Field, GoodHdr;
    PackTwo([a, b]);
    Layout(a);
    Layout(b);
    assert [] + EncodeHdr(a) == EncodeHdr(a);
  }

  lemma FourFields(hs: seq<Hdr>, last: Hdr)
    requires |hs| == 3 && GoodHdrs(hs) && GoodHdr(last)
    ensures GoodHdrs(hs + [last]) && forall i | 0 <= i < 3 :: GoodHdr(hs[i])
    ensures PackHdrs(hs + [last]) == Field(hs[0]) + Field(hs[1]) + Field(hs[2]) + Field(last)
  {
    hide EncodeHdr, PackHdrs, Field, GoodHdr;
    PackThree(hs);
    LastHeader(hs, last);
    Layout(hs[0]);
    Layout(hs[1]);
    Layout(hs[2]);
    Layout(last);
    assert [] + EncodeHdr(hs[0]) == EncodeHdr(hs[0]);
  }

  lemma SixFields(hs: seq<Hdr>, last: Hdr)
    requires |hs| == 5 && GoodHdrs(hs) && GoodHdr(last)
    ensures GoodHdrs(hs + [last]) && forall i | 0 <= i < 5 :: GoodHdr(hs[i])
    ensures PackHdrs(hs + [last]) ==
      Field(hs[0]) + Field(hs[1]) + Field(hs[2]) + Field(hs[3]) + Field(hs[4]) + Field(last)
  {
    hide EncodeHdr, PackHdrs, Field, GoodHdr;
    PackFive(hs);
    LastHeader(hs, last);
    Layout(hs[0]);
    Layout(hs[1]);
    Layout(hs[2]);
    Layout(hs[3]);
    Layout(hs[4]);
    Layout(last);
    assert [] + EncodeHdr(hs[0]) == EncodeHdr(hs[0]);
  }

  // ---------- Whole packets ----------

  lemma RequestLayout(m: Msg)
    requires GoodMsg(m) && m.Request?
    ensures Bytes(m) ==
      Pair("request-type", Hex([0])) + Pair("message-id", Encode(PosInt(m.id)))
      + Pair("sender-address", Encode(Str(m.from.address))) + Pair("reply-port", Encode(Str(m.from.port)))
      + Pair("op", Encode(Str(m.op))) + Pair("params", Encode(Array(ArgValues(m.args))))
  {
    WholeMsg(m);
    CallHdrsGood(m.id, m.from, m.op, m.args);
    hide Bytes, Encode, EncodeHdr, PackHdrs, RequestHdrs, ParamsHdr, Pair;
    SixFields(RequestHdrs(m.id, m.from, m.op), ParamsHdr(m.args));
    HeaderLists(m.id, m.from, m.op, 0);
    LastHeaders(m.args, IntArg(0), []);
    TypeByte(0);
  }

  lemma ResponseLayout(m: Msg)
    requires GoodMsg(m) && m.Response?
    ensures Bytes(m) ==
      Pair("request-type", Hex([1])) + Pair("message-id", Encode(PosInt(m.id))) + Pair("op", Encode(Str(m.op)))
      + Pair("reply", Encode(ArgValue(m.result)))
  {
    WholeMsg(m);
    ResponseHdrsGood(m.id, m.op);
    MsgHdrsGood(m);
    hide Bytes, Encode, EncodeHdr, PackHdrs, ResponseHdrs, ReplyHdr, Pair;
    assert ReplyHdr(m.result) in MsgHdrs(m);
    FourFields(ResponseHdrs(m.id, m.op), ReplyHdr(m.result));
    HeaderLists(m.id, Endpoint([], []), m.op, 0);
    LastHeaders([], m.result, []);
    TypeByte(1);
  }

  lemma RegistrationIsWhole(m: Msg)
    requires GoodMsg(m) && m.Registration? && [] !in m.services
    ensures GoodHdrs(RegistrationHdrs(m.from, |m.services|)) && GoodHdr(ServicesHdr(m.services))
    ensures GoodHdrs(MsgHdrs(m)) && Bytes(m) == PackHdrs(MsgHdrs(m))
    ensures MsgHdrs(m) == RegistrationHdrs(m.from, |m.services|) + [ServicesHdr(m.services)]
    ensures forall v | v in Strs(m.services) :: Packable(v)
  {
    hide Bytes, PackHdrs, RegistrationHdrs, GoodHdr;
    WholeRegistration(m);
    RegistrationHdrsGood(m.from, |m.services|);
    ServicesHdrGood(m.services);
    WholeServices(m.services);
  }

  lemma WholeServices(services: seq<bytes>)
    requires GoodHdr(ServicesHdr(services))
    ensures forall v | v in Strs(services) :: Packable(v)
  {
  }

  lemma RegistrationLayout(m: Msg)
    requires GoodMsg(m) && m.Registration? && [] !in m.services
    ensures forall v | v in Strs(m.services) :: Packable(v)
    ensures Bytes(m) ==
      Pair("request-type", Hex([2])) + Pair("sender-address", Encode(Str(m.from.address)))
      + Pair("reply-port", Encode(Str(m.from.port))) + Pair("service-name", Encode(Str("theServiceName")))
      + Pair("services-count", Encode(PosInt(|m.services|))) + Pair("services", Encode(Array(Strs(m.services))))
  {
    RegistrationIsWhole(m);
    hide Bytes, Encode, EncodeHdr, PackHdrs, RegistrationHdrs, ServicesHdr, Pair, Strs, Packable, GoodHdr;
    hide MsgHdrs;
    SixFields(RegistrationHdrs(m.from, |m.services|), ServicesHdr(m.services));
    HeaderLists(0, m.from, [], |m.services|);
    LastHeaders([], IntArg(0), m.services);
    TypeByte(2);
  }

  /** An acknowledgement is the same 28 bytes for every registration. */
  lemma AckLayout()
    ensures Bytes(Ack) == Pair("request-type", Hex([3])) + Pair("message-id", Hex([0]))
    ensures |Bytes(Ack)| == 28
  {
    WholeMsg(Ack);
    AckHdrsGood(0);
    hide Bytes, Encode, EncodeHdr, PackHdrs, AckHdrs;
    HeaderLists(0, Endpoint([], []), [], 0);
    TwoFields(AckHdrs(0)[0], AckHdrs(0)[1]);
    TypeByte(3);
    TypeByte(0);
  }

  lemma TypeFirst(m: Msg)
    ensures var t := match m case Request(_, _, _, _) => 0 case Response(_, _, _) => 1
                             case Registration(_, _) => 2 case Ack => 3;
      MsgHdrs(m) != [] && MsgHdrs(m)[0] == Hdr("request-type", PosInt(t))
  {
    match m
    case Request(id, from, op, _) =>
    case Response(id, op, _) =>
    case Registration(from, services) =>
    case Ack =>
  }

  lemma FirstField(hs: seq<Hdr>)
    requires GoodHdrs(hs) && hs != []
    ensures GoodHdr(hs[0]) && Field(hs[0]) <= PackHdrs(hs)
  {
    hide Encode;
    assert hs[0] in hs;
    PairLayout(hs[0].name, hs[0].val);
  }

  /** The first 15 bytes tell the kind of packet, also of a registration that is cut off. */
  lemma LeadingBytes(m: Msg)
    requires GoodMsg(m)
    ensures m.Request? ==> Pair("request-type", Hex([0])) <= Bytes(m)
    ensures m.Response? ==> Pair("request-type", Hex([1])) <= Bytes(m)
    ensures m.Registration? ==> Pair("request-type", Hex([2])) <= Bytes(m)
    ensures m.Ack? ==> Pair("request-type", Hex([3])) <= Bytes(m)
  {
    var tail := Shape(m);
    TypeFirst(m);
    hide Bytes, MsgHdrs, Encode, PackHdrs, Pair;
    FirstField(MsgHdrs(m));
    TypeByte(0);
    TypeByte(1);
    TypeByte(2);
    TypeByte(3);
  }

  /** Packets of up to 2^31 - 1 bytes fit. */
  lemma FrameLimit(m: Msg)
    ensures FitsFrame(m) <==> GoodMsg(m) && |Bytes(m)| < 0x8000_0000
  {
  }

  // ---------- Known packets ----------

  lemma TwoInts()
    ensures Encode(Array(ArgValues([IntArg(20), IntArg(199)]))) == Hex([0x92, 0x14, 0xcc, 0xc7])
  {
    var vs := ArgValues([IntArg(20), IntArg(199)]);
    assert vs == [PosInt(20), PosInt(199)];
    hide Encode, EncodeAll, HeadBytes;
    EncodePair(vs[0], vs[1]);
    EncodedInt(20);
    EncodedInt(199);
    EncodedContainers(vs);
    EncodedArrayHead(2);
  }

  /** The request of add(20, 199). */
  lemma KnownRequest(id: nat, from: Endpoint)
    requires 0x1_0000 <= id < 0x8000_0000 && GoodEndpoint(from) && |from.address| < 32 && |from.port| < 32
    ensures GoodMsg(Request(id, from, "add", [IntArg(20), IntArg(199)]))
    ensures Bytes(Request(id, from, "add", [IntArg(20), IntArg(199)])) ==
      Pair("request-type", Hex([0x00])) + Pair("message-id", Hex([0xce]) + Four(id))
      + Pair("sender-address", ShortStr(from.address)) + Pair("reply-port", ShortStr(from.port))
      + Pair("op", Hex([0xa3, 0x61, 0x64, 0x64])) + Pair("params", Hex([0x92, 0x14, 0xcc, 0xc7]))
  {
    var m := Request(id, from, "add", [IntArg(20), IntArg(199)]);
    TwoInts();
    AddText();
    hide Bytes, Encode, Pair, ShortStr, Four;
    RequestLayout(m);
    EncodedInt(id);
    ShortText(from.address);
    ShortText(from.port);
  }

  lemma AddText()
    ensures Encode(Str("add")) == Hex([0xa3, 0x61, 0x64, 0x64]) && IsC("add")
  {
    ShortText("add");
    hide Encode;
  }

  /** {"op": "add"} */
  lemma KnownHeader()
    ensures Encode(Header("op", Str("add"))) == Hex([0x81, 0xa2, 0x6f, 0x70, 0xa3, 0x61, 0x64, 0x64])
  {
    hide Encode, Header;
    PairLayout("op", Str("add"));
    AddText();
    SameBytes();
  }

  lemma SameBytes()
    ensures Hex([0x81, 0xa2]) + "op" + Hex([0xa3, 0x61, 0x64, 0x64]) ==
      Hex([0x81, 0xa2, 0x6f, 0x70, 0xa3, 0x61, 0x64, 0x64])
  {
  }

  ghost predicate ShortNames(names: seq<bytes>)
  {
    |names| < 16 && forall n | n in names :: 0 < |n| < 32
  }

  ghost function ShortStrs(names: seq<bytes>): bytes
    requires ShortNames(names)
  {
    if names == [] then [] else ShortStr(names[0]) + ShortStrs(names[1..])
  }

  lemma {:induction false} TextsEncoded(names: seq<bytes>)
    requires ShortNames(names)
    ensures (forall v | v in Strs(names) :: Packable(v)) && EncodeAll(Strs(names)) == ShortStrs(names)
  {
    hide ShortStr, Encode;
    if names != [] {
      assert names[0] in names;
      ShortText(names[0]);
      TextsEncoded(names[1..]);
      assert Strs(names)[1..] == Strs(names[1..]);
    }
  }

  lemma ServicesArray(names: seq<bytes>)
    requires ShortNames(names)
    ensures (forall v | v in Strs(names) :: Packable(v))
    ensures Encode(Array(Strs(names))) == Hex([0x90 + |names|]) + ShortStrs(names)
  {
    hide Encode, EncodeAll, HeadBytes, ShortStrs, Strs;
    TextsEncoded(names);
    EncodedContainers(Strs(names));
    EncodedArrayHead(|names|);
  }

  /** The registration of a table of a few short names, last one first. */
  lemma KnownRegistration(m: Msg)
    requires GoodMsg(m) && m.Registration? && ShortNames(m.services)
    requires |m.from.address| < 32 && |m.from.port| < 32
    ensures Bytes(m) ==
      Pair("request-type", Hex([0x02]))
      + Pair("sender-address", ShortStr(m.from.address)) + Pair("reply-port", ShortStr(m.from.port))
      + Pair("service-name", Hex([0xae]) + "theServiceName")
      + Pair("services-count", Hex([|m.services|]))
      + Pair("services", Hex([0x90 + |m.services|]) + ShortStrs(m.services))
  {
    hide Bytes, Encode, Pair, ShortStr, ShortStrs, Strs, Packable, GoodMsg;
    assert [] !in m.services;
    ServiceText();
    TypeByte(|m.services|);
    ServicesArray(m.services);
    RegistrationLayout(m);
    ShortText(m.from.address);
    ShortText(m.from.port);
  }

  lemma ServiceText()
    ensures Encode(Str("theServiceName")) == Hex([0xae]) + "theServiceName"
  {
    ShortText("theServiceName");
    hide Encode;
  }
}
