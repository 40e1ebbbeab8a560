/**
One remote call, end to end: what a generated server does with the packet of a generated client,
and what the client then reads out of the answer.
*/
module Rpc {
  import opened MsgPack
  import opened Common
  import Framing
  import opened Formats
  import opened Generators
  import opened Stubs
  import opened Client
  import opened Server
  import opened Messages

  /** server_interface.h, as far as it compiles: good prototypes, no function declared twice. */
  ghost predicate LegalIface(iface: seq<Sig>)
  {
    && (forall g | g in iface :: GoodSig(g))
    && forall i, j | 0 <= i < j < |iface| :: iface[i].name != iface[j].name
  }

  /** In addition, no parameter hides a name that generated code needs. */
  ghost predicate GoodIface(iface: seq<Sig>)
  {
    LegalIface(iface) && forall g | g in iface :: ServerClear(g) && ClientClear(g)
  }

  /** The server stubs generated from an interface. */
  function StubsFor(iface: seq<Sig>): (stubs: seq<ServerStub>)
    ensures |stubs| == |iface| && forall i | 0 <= i < |iface| ::
      stubs[i] == ServerStubFor(iface[i]) && stubs[i].op == iface[i].name
  {
    seq(|iface|, i requires 0 <= i < |iface| => ServerStubFor(iface[i]))
  }

  lemma StubsGood(iface: seq<Sig>)
    requires LegalIface(iface)
    ensures GoodStubs(StubsFor(iface))
  {
    forall st | st in StubsFor(iface)
      ensures IsC(st.op)
    {
      var i :| 0 <= i < |iface| && st.op == iface[i].name;
      assert iface[i] in iface;
    }
  }

  /** Arguments the server can take in: its parameter vector has no entry for a negative int. */
  predicate Receivable(a: Arg)
  {
    a.IntArg? ==> a.i >= 0
  }

  predicate AllReceivable(args: seq<Arg>)
  {
    forall a | a in args :: Receivable(a)
  }

  function CallSlots(args: seq<Arg>): (slots: seq<Slot>)
  {
    SlotsOf(ArgValues(args))
  }

  lemma SlotAt(args: seq<Arg>, i: nat)
    requires i < |args|
    ensures |CallSlots(args)| == |args|
    ensures CallSlots(args)[i] == match args[i]
                                  case IntArg(n) => if n >= 0 then IntSlot(n) else Empty
                                  case StrArg(s) => StrSlot(s)
  {
    if args[i].StrArg? {
      CStrIdentity(args[i].s);
    }
  }

  lemma GetterAt(sig: Sig, args: seq<Arg>, k: nat)
    requires GoodSig(sig) && Typed(sig, args) && k < |args|
    ensures |ServerStubFor(sig).getters| == |args|
    ensures EvalGetter(ServerStubFor(sig).getters[k], CallSlots(args)) ==
      if Receivable(args[k]) && sig.params[k].name != PARAMS_VAR then Ok(args[k]) else Abort
  {
    hide Split, NonEmpty, TokenTypes, TokenNames, TypesFormat, PrintParams, Getters, CallSlots, ServerStubFor,
      ClientStubFor;
    GeneratorsAgree(sig);
    SlotAt(args, k);
    TypeTexts();
    assert OfType(args[k], sig.params[k].ty);
  }

  lemma TypeTexts()
    ensures TypeText(CInt) == "int" && TypeText(CharPtr) != "int"
  {
  }

  lemma EvalGettersStep(getters: seq<Getter>, slots: seq<Slot>, k: nat)
    requires k < |getters|
    ensures EvalGetters(getters[k..], slots) ==
      match EvalGetter(getters[k], slots)
      case Abort => Abort
      case Ok(a) =>
        match EvalGetters(getters[k + 1..], slots)
        case Abort => Abort
        case Ok(rest) => Ok([a] + rest)
  {
    hide EvalGetter;
    assert getters[k..][1..] == getters[k + 1..];
  }

  lemma ReceivableStep(args: seq<Arg>, k: nat)
    requires k < |args|
    ensures args[k..] == [args[k]] + args[k + 1..]
    ensures AllReceivable(args[k..]) <==> Receivable(args[k]) && AllReceivable(args[k + 1..])
  {
    hide Receivable;
    assert args[k] in args[k..];
    assert forall a :: a in args[k..] <==> a == args[k] || a in args[k + 1..];
  }

  /** No variable of parameter k or later is called params. */
  predicate NoParamsVar(sig: Sig, k: nat)
  {
    forall j | k <= j < |sig.params| :: sig.params[j].name != PARAMS_VAR
  }

  /** The getters read back exactly the arguments, or crash on the first negative int. */
  lemma {:induction false} GettersRead(sig: Sig, args: seq<Arg>, k: nat)
    requires GoodSig(sig) && Typed(sig, args) && k <= |args|
    ensures |ServerStubFor(sig).getters| == |args|
    ensures EvalGetters(ServerStubFor(sig).getters[k..], CallSlots(args)) ==
      if AllReceivable(args[k..]) && NoParamsVar(sig, k) then Ok(args[k..]) else Abort
    decreases |args| - k
  {
    hide ServerStubFor, CallSlots, EvalGetter, Receivable, GoodSig;
    if k < |args| {
      TypedCount(sig, args);
      hide EvalGetters, AllReceivable, Typed;
      GettersRead(sig, args, k + 1);
      GetterAt(sig, args, k);
      EvalGettersStep(ServerStubFor(sig).getters, CallSlots(args), k);
      ReceivableStep(args, k);
      assert NoParamsVar(sig, k) <==> sig.params[k].name != PARAMS_VAR && NoParamsVar(sig, k + 1);
    } else {
      GetterCount(sig);
      assert ServerStubFor(sig).getters[k..] == [];
      assert args[k..] == [];
    }
  }

  lemma TypedCount(sig: Sig, args: seq<Arg>)
    requires Typed(sig, args)
    ensures |args| == |sig.params|
  {
  }

  lemma GetterCount(sig: Sig)
    requires GoodSig(sig)
    ensures |ServerStubFor(sig).getters| == |sig.params|
  {
    hide Split, NonEmpty, TokenTypes, TokenNames, TypesFormat, PrintParams, Getters, ServerStubFor, ClientStubFor;
    GeneratorsAgree(sig);
  }

  lemma ResponseFormat(sig: Sig, result: Arg)
    requires GoodSig(sig) && OfType(result, sig.ret)
    ensures ServerStubFor(sig).format == Directive(result)
    ensures ClientStubFor(sig).accessor == if result.IntArg? then GetHdrIntReply else GetHdrStrReply
  {
    hide Split, NonEmpty, TokenTypes, TokenNames, TypesFormat, PrintParams, Getters, ServerStubFor, ClientStubFor;
    GeneratorsAgree(sig);
  }

  lemma WalkOne(result: Arg)
    ensures Walk(Directive(result), [result]) == Ok([result])
  {
    WalkDirectives([result]);
    assert Directives([result]) == Directive(result) + Directives([]) == Directive(result);
  }

  /** The response packed by one generated block is the packet of the response message. */
  lemma ResponseWire(op: bytes, id: int, result: Arg)
    requires IsC(op) && 0 <= id < 0x8000_0000
    ensures ResponseBytes(id, op, Directive(result), [result]) == Ok(Bytes(Response(id, op, result)))
  {
    HeaderNames();
    hide PackHdrs, HeaderStart, EncodeAll, ResponseHdrs, Bytes, Directive, Walk;
    WalkOne(result);
    ResponseHdrsGood(id, op);
    ResponsePacket(id, op, result);
  }

  lemma ResponsePacket(id: int, op: bytes, result: Arg)
    requires GoodMsg(Response(id, op, result)) && GoodHdrs(ResponseHdrs(id, op)) && GoodName(REPLY_HDR)
    ensures Bytes(Response(id, op, result)) ==
      PackHdrs(ResponseHdrs(id, op)) + HeaderStart(REPLY_HDR) + EncodeAll(ArgValues([result]))
  {
    hide PackHdrs, HeaderStart, Encode, EncodeAll, ResponseHdrs;
    LastHeader(ResponseHdrs(id, op), ReplyHdr(result));
    HeaderEncoding(REPLY_HDR, ArgValue(result));
    EncodeArg([], result);
    NoArgs();
    assert [] + [result] == [result];
    var a, b, c := PackHdrs(ResponseHdrs(id, op)), HeaderStart(REPLY_HDR), Encode(ArgValue(result));
    assert [] + c == c && a + (b + c) == a + b + c;
  }

  lemma NoArgs()
    ensures EncodeAll(ArgValues([])) == []
  {
  }

  /**
  What the block of a signature answers to a typed call: its service's result, with the id, the
  operation and the destination that their names mean inside the block; or a crash.
  */
  lemma StubAnswers(sig: Sig, host: Host, id: int, args: seq<Arg>)
    requires GoodSig(sig) && Typed(sig, args) && OfType(host.impl(sig.name, args), sig.ret) && IsInt32(id)
    ensures |args| == |sig.params|
    ensures CallStub(ServerStubFor(sig), host, Some(id), CallSlots(args)) ==
      if !AllReceivable(args) || !NoParamsVar(sig, 0) then Abort else
      match BlockContext(ParamNames(sig.params), args, host.broker, Some(id), sig.name)
      case Abort => Abort
      case Ok(c) =>
        match ResponseBytes(c.id, c.op, Directive(host.impl(sig.name, args)), [host.impl(sig.name, args)])
        case Abort => Abort
        case Ok(packet) => Ok(Send(c.to.address, c.to.port, packet))
  {
    hide Split, NonEmpty, TokenTypes, TokenNames, TypesFormat, PrintParams, Getters;
    hide CallSlots, EvalGetters, ResponseBytes, BlockContext;
    GeneratorsAgree(sig);
    var st := ServerStubFor(sig);
    ResponseFormat(sig, host.impl(sig.name, args));
    GettersRead(sig, args, 0);
    assert st.getters[0..] == st.getters && args[0..] == args;
    var names := ParamNames(sig.params);
    assert GetterNames(st.getters) == names;
    NamedArgsInOrder(names, args, 0);
    assert names[0..] == names;
  }

  /** The stub sends the service's result to the broker, under the id and the operation of the request. */
  ghost predicate Carries(sig: Sig, host: Host, id: int, args: seq<Arg>)
    requires IsC(sig.name) && 0 <= id < 0x8000_0000
  {
    CallStub(ServerStubFor(sig), host, Some(id), CallSlots(args)) ==
      Ok(Send(host.broker.address, host.broker.port, Bytes(Response(id, sig.name, host.impl(sig.name, args)))))
  }

  lemma ClearContext(sig: Sig, args: seq<Arg>, broker: Address, id: int)
    requires ServerClear(sig) && |args| == |sig.params| && IsInt32(id) && IsC(sig.name)
    ensures NoParamsVar(sig, 0)
    ensures BlockContext(ParamNames(sig.params), args, broker, Some(id), sig.name) == Ok(Context(id, sig.name, broker))
  {
    forall k | 0 <= k < |sig.params|
      ensures sig.params[k].name !in {MESSAGE_ID_VAR, OPERATION_VAR, BROKER_ADDRESS_VAR, BROKER_PORT_VAR, PARAMS_VAR}
    {
      assert sig.params[k] in sig.params;
    }
  }

  /** A hidden name means 0 or the empty string when the arguments are. */
  lemma HiddenContext(sig: Sig, broker: Address, id: int)
    requires !ServerClear(sig) && IsInt32(id) && id != 0 && IsC(sig.name) && sig.name != []
    requires broker.address != [] && broker.port != []
    ensures NoParamsVar(sig, 0) ==>
      BlockContext(ParamNames(sig.params), Defaults(sig.params), broker, Some(id),
        sig.name) != Ok(Context(id, sig.name, broker))
  {
    var names, args := ParamNames(sig.params), Defaults(sig.params);
    var p :| p in sig.params && p.name in {MESSAGE_ID_VAR, OPERATION_VAR, BROKER_ADDRESS_VAR, BROKER_PORT_VAR,
      PARAMS_VAR};
    var k :| 0 <= k < |sig.params| && sig.params[k] == p;
    assert names[k] == p.name;
    ResolveDefault(names, args, p.name);
  }

  /** A response under another id or operation is another packet. */
  lemma ResponsesDiffer(id: int, op: bytes, id': int, op': bytes, result: Arg)
    requires 0 <= id < 0x8000_0000 && IsInt32(id') && id' >= 0 && IsC(op) && IsC(op') && (id != id' || op != op')
    ensures Bytes(Response(id, op, result)) != Bytes(Response(id', op', result))
  {
    hide Bytes, HdrInt, HdrStr;
    ResponseLookups(Response(id, op, result));
    ResponseLookups(Response(id', op', result));
  }

  /**
  For every id and every receivable argument list the response carries the request's id and
  operation to the broker, if and only if no parameter hides a name that the block needs for it.
  */
  lemma CarriesExactly(sig: Sig, impl: Impl)
    requires GoodSig(sig) && forall args | Typed(sig, args) :: OfType(impl(sig.name, args), sig.ret)
    ensures (forall broker, id, args | 0 <= id < 0x8000_0000 && Typed(sig, args) && AllReceivable(args) ::
               Carries(sig, Host(impl, broker), id, args)) <==> ServerClear(sig)
  {
    hide CallStub, Bytes, CallSlots, ServerStubFor, BlockContext, ResponseBytes, Directive, AllReceivable, NoParamsVar;
    forall broker, id, args | ServerClear(sig) && 0 <= id < 0x8000_0000 && Typed(sig, args) && AllReceivable(args)
      ensures Carries(sig, Host(impl, broker), id, args)
    {
      StubAnswers(sig, Host(impl, broker), id, args);
      ClearContext(sig, args, broker, id);
      ResponseWire(sig.name, id, impl(sig.name, args));
    }
    if !ServerClear(sig) {
      var args := Defaults(sig.params);
      DefaultsTyped(sig);
      NotCarried(sig, impl, args);
    }
  }

  lemma DefaultsTyped(sig: Sig)
    ensures Typed(sig, Defaults(sig.params)) && AllReceivable(Defaults(sig.params))
  {
  }

  lemma NotCarried(sig: Sig, impl: Impl, args: seq<Arg>)
    requires GoodSig(sig) && !ServerClear(sig) && args == Defaults(sig.params)
    requires Typed(sig, args) && AllReceivable(args) && OfType(impl(sig.name, args), sig.ret)
    ensures !Carries(sig, Host(impl, Endpoint("x", "x")), 1, args)
  {
    hide CallStub, Bytes, CallSlots, ServerStubFor, BlockContext, ResponseBytes, Directive, AllReceivable, NoParamsVar;
    var broker: Address := Endpoint("x", "x");
    StubAnswers(sig, Host(impl, broker), 1, args);
    HiddenContext(sig, broker, 1);
    var names, result := ParamNames(sig.params), impl(sig.name, args);
    var context := BlockContext(names, args, broker, Some(1), sig.name);
    if NoParamsVar(sig, 0) && context.Ok? {
      var c := context.value;
      if c.to == broker {
        ContextIds(names, args, broker, 1, sig.name);
        ResponseWire(c.op, c.id, result);
        ResponsesDiffer(1, sig.name, c.id, c.op, result);
      }
    }
  }

  lemma ContextIds(names: seq<bytes>, args: seq<Arg>, broker: Address, id: int, op: bytes)
    requires |names| == |args| && IsInt32(id) && IsC(op) && id >= 0 && AllReceivable(args)
    ensures var c := BlockContext(names, args, broker, Some(id), op); c.Ok? ==> c.value.id >= 0
  {
    if MESSAGE_ID_VAR in names {
      NamedArgAmong(names, args, MESSAGE_ID_VAR);
    }
  }

  lemma {:induction false} NamedArgAmong(names: seq<bytes>, values: seq<Arg>, n: bytes)
    requires |names| == |values| && n in names
    ensures NamedArg(names, values, n).Ok? && NamedArg(names, values, n).value in values
  {
    if names[0] != n {
      NamedArgAmong(names[1..], values[1..], n);
    }
  }

  // ---------- Dispatch ----------

  ghost predicate Serving(iface: seq<Sig>, id: Option<int>)
  {
    LegalIface(iface) && (id.Some? ==> IsInt32(id.value))
  }

  /** One generated block. */
  lemma DispatchStep(iface: seq<Sig>, host: Host, id: Option<int>, op: bytes, slots: seq<Slot>, k: nat)
    requires Serving(iface, id) && k < |iface|
    ensures GoodStubs(StubsFor(iface)[k..]) && GoodStubs(StubsFor(iface)[k + 1..]) && IsC(ServerStubFor(iface[k]).op)
    ensures var rest := Dispatch(StubsFor(iface)[k + 1..], host, id, At(op), slots);
      Dispatch(StubsFor(iface)[k..], host, id, At(op), slots) ==
        if iface[k].name != op then rest else
        match CallStub(ServerStubFor(iface[k]), host, id, slots)
        case Abort => Abort
        case Ok(response) => if rest.Abort? then Abort else Ok([response] + rest.value)
  {
    hide CallStub, ServerStubFor, LegalIface;
    StubsGood(iface);
    var stubs := StubsFor(iface);
    assert stubs[k] in stubs;
    assert forall st | st in stubs[k..] :: st in stubs;
    assert forall st | st in stubs[k + 1..] :: st in stubs;
    assert stubs[k..][1..] == stubs[k + 1..];
  }

  /** Past the declarations that are not asked for, dispatch does nothing. */
  lemma {:induction false} DispatchMissing(iface: seq<Sig>, host: Host, id: Option<int>, op: bytes, slots: seq<Slot>,
      k: nat)
    requires Serving(iface, id) && k <= |iface|
    requires forall i | k <= i < |iface| :: iface[i].name != op
    ensures GoodStubs(StubsFor(iface)[k..])
    ensures Dispatch(StubsFor(iface)[k..], host, id, At(op), slots) == Ok([])
    decreases |iface| - k
  {
    hide CallStub, ServerStubFor, LegalIface;
    if k < |iface| {
      hide Dispatch;
      DispatchStep(iface, host, id, op, slots, k);
      DispatchMissing(iface, host, id, op, slots, k + 1);
    } else {
      assert StubsFor(iface)[k..] == [];
    }
  }

  /** The declaration that is asked for is called once. */
  lemma {:induction false} DispatchHit(iface: seq<Sig>, host: Host, id: Option<int>, slots: seq<Slot>, i: nat, k: nat)
    requires Serving(iface, id) && k <= i < |iface|
    ensures GoodStubs(StubsFor(iface)[k..]) && IsC(ServerStubFor(iface[i]).op)
    ensures Dispatch(StubsFor(iface)[k..], host, id, At(iface[i].name), slots) ==
      match CallStub(ServerStubFor(iface[i]), host, id, slots)
      case Abort => Abort
      case Ok(response) => Ok([response])
    decreases i - k
  {
    hide CallStub, ServerStubFor, Dispatch;
    DispatchStep(iface, host, id, iface[i].name, slots, k);
    if k < i {
      DispatchHit(iface, host, id, slots, i, k + 1);
    } else {
      DispatchMissing(iface, host, id, iface[i].name, slots, k + 1);
      var answer := CallStub(ServerStubFor(iface[i]), host, id, slots);
      assert answer.Ok? ==> [answer.value] + [] == [answer.value];
    }
  }

  // ---------- The request loop ----------

  /** HandleObjs over headers that have been read already. */
  ghost function HandleHdrs(stubs: seq<ServerStub>, host: Host, st: CallState, hs: seq<Hdr>): Outcome<seq<Send>>
    requires GoodStubs(stubs) && (st.id.Some? ==> IsInt32(st.id.value))
    decreases |hs|
  {
    if hs == [] then Ok(st.sent) else
    match HandleHdr(stubs, host, st, hs[0])
    case Abort => Abort
    case Ok(st') => HandleHdrs(stubs, host, st', hs[1..])
  }

  lemma {:induction false} HandleObjsRead(stubs: seq<ServerStub>, host: Host, st: CallState, hs: seq<Hdr>)
    requires GoodHdrs(hs) && GoodStubs(stubs) && (st.id.Some? ==> IsInt32(st.id.value))
    ensures HandleObjs(stubs, host, st, Objs(hs)) == HandleHdrs(stubs, host, st, hs)
    decreases |hs|
  {
    hide HandleHdr, ExtractHeader;
    if hs != [] {
      HeadersExtract(hs);
      assert Objs(hs)[1..] == Objs(hs[1..]);
      if HandleHdr(stubs, host, st, hs[0]).Ok? {
        HandleObjsRead(stubs, host, HandleHdr(stubs, host, st, hs[0]).value, hs[1..]);
      }
    }
  }

  lemma HandleStep(stubs: seq<ServerStub>, host: Host, st: CallState, hs: seq<Hdr>, i: nat)
    requires i < |hs| && GoodStubs(stubs) && (st.id.Some? ==> IsInt32(st.id.value))
    ensures HandleHdrs(stubs, host, st, hs[i..]) ==
      match HandleHdr(stubs, host, st, hs[i])
      case Abort => Abort
      case Ok(st') => HandleHdrs(stubs, host, st', hs[i + 1..])
  {
    hide HandleHdr;
    assert hs[i..][1..] == hs[i + 1..];
  }

  const START := CallState(None, Uninit, [])

  /** After the five leading headers the server knows the message id and the operation. */
  lemma FiveHeaders(stubs: seq<ServerStub>, host: Host, id: int, from: Endpoint, op: bytes, more: seq<Hdr>)
    requires GoodStubs(stubs) && 0 <= id < 0x8000_0000 && GoodEndpoint(from) && IsC(op)
    ensures HandleHdrs(stubs, host, START, RequestHdrs(id, from, op) + more) ==
      HandleHdrs(stubs, host, CallState(Some(id), At(op), []), more)
  {
    HeaderNames();
    hide REQUEST_TYPE_HDR, MESSAGE_ID_HDR, SENDER_ADDRESS_HDR, REPLY_PORT_HDR, OPERATION_HDR, CStr, HandleHdrs,
      Dispatch;
    CStrIdentity(op);
    var hs := RequestHdrs(id, from, op) + more;
    var s1 := START.(id := Some(id));
    HandleStep(stubs, host, START, hs, 0);
    HandleStep(stubs, host, START, hs, 1);
    HandleStep(stubs, host, s1, hs, 2);
    HandleStep(stubs, host, s1, hs, 3);
    HandleStep(stubs, host, s1, hs, 4);
    assert hs[0..] == hs && hs[5..] == more;
  }

  /** A request is dispatched once, with the id, the operation and the slots it carries. */
  lemma RequestDispatched(stubs: seq<ServerStub>, host: Host, m: Msg)
    requires GoodStubs(stubs) && GoodMsg(m) && m.Request?
    ensures HandleRequest(stubs, host, Bytes(m)) ==
      if |Bytes(m)| < INT_LIMIT then Dispatch(stubs, host, Some(m.id), At(m.op), CallSlots(m.args)) else Abort
  {
    WholeMsg(m);
    var st := CallState(Some(m.id), At(m.op), []);
    var last := [ParamsHdr(m.args)];
    ParamsHandled(stubs, host, st, m.args);
    hide ReadAll, PackHdrs, HandleHdrs, HandleObjs, Dispatch, RequestHdrs, GoodHdrs, CallSlots, ParamsHdr;
    EmptyBuffer();
    assert PackHdrs(MsgHdrs(m)) + [] == PackHdrs(MsgHdrs(m));
    HeadersRead(MsgHdrs(m), []);
    HandleObjsRead(stubs, host, START, MsgHdrs(m));
    FiveHeaders(stubs, host, m.id, m.from, m.op, last);
  }

  lemma ParamsHandled(stubs: seq<ServerStub>, host: Host, st: CallState, args: seq<Arg>)
    requires GoodStubs(stubs) && (st.id.Some? ==> IsInt32(st.id.value)) && st.sent == []
    ensures HandleHdrs(stubs, host, st, [ParamsHdr(args)]) == Dispatch(stubs, host, st.id, st.op, CallSlots(args))
  {
    hide Dispatch;
    var h := ParamsHdr(args);
    var d := Dispatch(stubs, host, st.id, st.op, CallSlots(args));
    assert [h][1..] == [];
    assert d.Ok? ==> [] + d.value == d.value;
  }

  // ---------- Main results ----------

  /**
  Whatever the parameters are called, a request is answered by the one block of its operation, if its
  length fits an int.
  */
  lemma OneBlockAnswers(iface: seq<Sig>, host: Host, m: Msg, i: nat)
    requires LegalIface(iface) && GoodMsg(m) && m.Request? && i < |iface| && iface[i].name == m.op
    ensures GoodStubs(StubsFor(iface)) && IsC(ServerStubFor(iface[i]).op)
    ensures HandleRequest(StubsFor(iface), host, Bytes(m)) ==
      if |Bytes(m)| >= INT_LIMIT then Abort else
      match CallStub(ServerStubFor(iface[i]), host, Some(m.id), CallSlots(m.args))
      case Abort => Abort
      case Ok(send) => Ok([send])
  {
    hide HandleRequest, Dispatch, CallStub, Bytes;
    StubsGood(iface);
    assert iface[i] in iface;
    RequestDispatched(StubsFor(iface), host, m);
    DispatchHit(iface, host, Some(m.id), CallSlots(m.args), i, 0);
    assert StubsFor(iface)[0..] == StubsFor(iface);
  }

  /**
  A server whose interface declares the operation, with no parameter that hides a name, sends
  exactly one response to a typed request: to the broker, with the request's id and operation and
  the result of the service on the request's arguments. It crashes instead exactly when an argument
  is a negative int or the length of the packet does not fit an int.
  */
  lemma ExactlyOneAnswer(iface: seq<Sig>, host: Host, m: Msg, i: nat)
    requires LegalIface(iface) && GoodMsg(m) && m.Request? && i < |iface| && iface[i].name == m.op &&
      ServerClear(iface[i])
    requires Typed(iface[i], m.args) && OfType(host.impl(m.op, m.args), iface[i].ret)
    ensures GoodStubs(StubsFor(iface))
    ensures HandleRequest(StubsFor(iface), host, Bytes(m)) ==
      if AllReceivable(m.args) && |Bytes(m)| < INT_LIMIT
      then Ok([Send(host.broker.address, host.broker.port, Bytes(Response(m.id, m.op, host.impl(m.op, m.args))))])
      else Abort
  {
    hide HandleRequest, CallStub, Bytes, BlockContext, ResponseBytes, Directive;
    assert iface[i] in iface;
    OneBlockAnswers(iface, host, m, i);
    StubAnswers(iface[i], host, m.id, m.args);
    ClearContext(iface[i], m.args, host.broker, m.id);
    ResponseWire(m.op, m.id, host.impl(m.op, m.args));
  }

  /** An operation the interface does not declare gets no answer. */
  lemma NoAnswer(iface: seq<Sig>, host: Host, m: Msg)
    requires LegalIface(iface) && GoodMsg(m) && m.Request?
    requires forall g | g in iface :: g.name != m.op
    ensures GoodStubs(StubsFor(iface))
    ensures HandleRequest(StubsFor(iface), host, Bytes(m)) == if |Bytes(m)| < INT_LIMIT then Ok([]) else Abort
  {
    hide HandleRequest, Dispatch, Bytes;
    StubsGood(iface);
    RequestDispatched(StubsFor(iface), host, m);
    DispatchMissing(iface, host, Some(m.id), m.op, CallSlots(m.args), 0);
    assert StubsFor(iface)[0..] == StubsFor(iface);
  }

  /** A result as the client reads it: a negative int arrives as 0. */
  function AsRead(result: Arg): Arg
  {
    if Receivable(result) then result else IntArg(0)
  }

  /** What the client's accessor makes of a response. */
  lemma ReplyRead(sig: Sig, id: int, result: Arg)
    requires GoodSig(sig) && OfType(result, sig.ret) && 0 <= id < 0x8000_0000
    ensures Reply(ClientStubFor(sig).accessor, Bytes(Response(id, sig.name, result))) ==
      Ok(AsRead(result))
  {
    hide HdrInt, HdrStr, Bytes, ClientStubFor, ServerStubFor;
    ResponseFormat(sig, result);
    ResponseLookups(Response(id, sig.name, result));
  }

  /**
  RPC transparency: the client function of a declared signature sends a request to the broker; any
  server generated from the same interface answers it with one packet to the broker; and the client
  function returns from that packet the very value the service computed on the very arguments it was
  called with - exactly when that value is not a negative int.
  */
  lemma RpcTransparency(iface: seq<Sig>, host: Host, i: nat, id: int, from: Endpoint, args: seq<Arg>)
    requires LegalIface(iface) && i < |iface| && ServerClear(iface[i]) && ClientClear(iface[i])
    requires Typed(iface[i], args) && AllReceivable(args) && OfType(host.impl(iface[i].name, args), iface[i].ret)
    requires IsC(iface[i].name) && 0 <= id < 0x8000_0000 && GoodEndpoint(from)
    requires FitsFrame(Request(id, from, iface[i].name, args))
    requires Framing.Fits(Bytes(Response(id, iface[i].name, host.impl(iface[i].name, args))))
    ensures GoodStubs(StubsFor(iface)) && iface[i] in iface
    ensures var result := host.impl(iface[i].name, args);
      exists request, response ::
        && ClientRequest(iface[i], id, from, host.broker, args) == Ok(ClientCall(host.broker, from.port, request))
        && HandleRequest(StubsFor(iface), host, request) == Ok([Send(host.broker.address, host.broker.port, response)])
        && (Reply(ClientStubFor(iface[i]).accessor, response) == Ok(result) <==> Receivable(result))
  {
    hide ClientRequest, HandleRequest, Reply, GoodHdrs, PackHdrs;
    var sig := iface[i];
    assert sig in iface;
    var m := Request(id, from, sig.name, args);
    var result := host.impl(sig.name, args);
    var response := Bytes(Response(id, sig.name, result));
    ClientRequestWire(sig, id, from, host.broker, args);
    ClearCallContext(sig, args, from, host.broker);
    WholeMsg(m);
    ExactlyOneAnswer(iface, host, m, i);
    ReplyRead(sig, id, result);
    assert ClientRequest(sig, id, from, host.broker, args) == Ok(ClientCall(host.broker, from.port, Bytes(m)));
    assert HandleRequest(StubsFor(iface), host, Bytes(m)) ==
      Ok([Send(host.broker.address, host.broker.port, response)]);
    assert Reply(ClientStubFor(sig).accessor, response) == Ok(result) <==> Receivable(result);
  }

  /** A format that announces more than it packs leaves a packet of five headers and an unfinished one. */
  lemma CutOffRequest(id: int, from: Endpoint, op: bytes, fmt: bytes, args: seq<Arg>)
    requires 0 <= id < 0x8000_0000 && GoodEndpoint(from) && IsC(op) && IsC(fmt)
    requires Walk(fmt, args).Ok? && !WellFormed(fmt)
    ensures GoodHdrs(RequestHdrs(id, from, op))
    ensures RequestBytes(id, from, op, fmt, args).Ok?
    ensures ReadAll(RequestBytes(id, from, op, fmt, args).value) == Stream(Objs(RequestHdrs(id, from, op)), false)
  {
    HeaderNames();
    LoopsAgree(fmt, args);
    RequestHdrsGood(id, from, op);
    hide Walk, PackHdrs, EncodeAll, HeadBytes, HeaderStart, ArgValues, CountPercent, RequestHdrs, ReadAll, Objs,
      GoodHdrs;
    CutOff(RequestHdrs(id, from, op), SERVICE_PARAMS_HDR, ArgValues(Walk(fmt, args).value), CountPercent(fmt));
  }

  /** No server ever answers a request packed by such a format, whatever its interface. */
  lemma CutOffRequestUnanswered(stubs: seq<ServerStub>, host: Host, id: int, from: Endpoint, op: bytes, fmt: bytes,
      args: seq<Arg>)
    requires 0 <= id < 0x8000_0000 && GoodEndpoint(from) && IsC(op) && IsC(fmt) && GoodStubs(stubs)
    requires Walk(fmt, args).Ok? && !WellFormed(fmt)
    ensures RequestBytes(id, from, op, fmt, args).Ok?
    ensures var packet := RequestBytes(id, from, op, fmt, args).value;
      HandleRequest(stubs, host, packet) == if |packet| < INT_LIMIT then Ok([]) else Abort
  {
    hide ReadAll, RequestBytes, HandleHdrs, HandleObjs, RequestHdrs, GoodHdrs, Objs;
    CutOffRequest(id, from, op, fmt, args);
    var hs := RequestHdrs(id, from, op);
    HandleObjsRead(stubs, host, START, hs);
    FiveHeaders(stubs, host, id, from, op, []);
    assert hs + [] == hs;
    NothingLeft(stubs, host, CallState(Some(id), At(op), []));
  }

  lemma NothingLeft(stubs: seq<ServerStub>, host: Host, st: CallState)
    requires GoodStubs(stubs) && (st.id.Some? ==> IsInt32(st.id.value))
    ensures HandleHdrs(stubs, host, st, []) == Ok(st.sent)
  {
  }
}
