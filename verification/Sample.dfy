/**
Runs of the repository's own services: two of the calls that client/client.c makes, and four things
that go wrong.
*/
module Sample {
  import Framing
  import opened MsgPack
  import opened Common
  import opened Formats
  import opened Generators
  import opened Stubs
  import opened Client
  import opened Server
  import opened Messages
  import opened Broker
  import opened Rpc
  import opened Protocol
  import opened System
  import opened Theorems
  import opened Exchanges
  import opened Services

  // ---------- Calls of the repository's own operations ----------

  /** Three endpoints for three processes. */
  predicate Apart(broker: Address, ep: Endpoint, client: Endpoint)
  {
    ModestEndpoint(ep) && GoodEndpoint(client) && ep != broker && client != broker && client != ep
  }

  /** Any operation, called with arguments of its types that make a request that fits. */
  lemma OwnCall(broker: Address, ep: Endpoint, client: Endpoint, g: Sig, id: int, args: seq<Arg>)
    requires Apart(broker, ep, client) && g in Iface() && Typed(g, args) && FitsFrame(Request(id, client, g.name, args))
    ensures Served(OwnCfg(broker, ep), 0, client, g, id, args)
  {
    hide ValidCfg, FitsFrame, Iface, Names, Service, Typed, GoodEndpoint, ModestEndpoint;
    OwnCfgIsValid(broker, ep);
    OpInNames(g);
    OwnRegistration(ep);
    assert ServerAt(OwnCfg(broker, ep).servers, client) == 1;
  }

  function Two(one: int, two: int): seq<Arg>
    requires IsInt32(one) && IsInt32(two)
  {
    [IntArg(one), IntArg(two)]
  }

  /** An operation on two ints. */
  lemma SumCall(broker: Address, ep: Endpoint, client: Endpoint, g: Sig, id: int, one: int, two: int)
    requires Apart(broker, ep, client) && ModestEndpoint(client) && 0 <= id < 0x8000_0000
    requires (g == Add() || g == Difference()) && IsInt32(one) && IsInt32(two)
    ensures g in Iface() && Typed(g, Two(one, two)) && FitsFrame(Request(id, client, g.name, Two(one, two)))
    ensures Served(OwnCfg(broker, ep), 0, client, g, id, Two(one, two))
  {
    hide FitsFrame, Served, GetServerDate, Echo, GetBrokerName, SayHello, SayDog;
    NamesAreC();
    RequestFits(id, client, g.name, Two(one, two));
    OwnCall(broker, ep, client, g, id, Two(one, two));
  }

  lemma NonNegativeReceivable(one: int, two: int)
    requires IsInt32(one) && IsInt32(two)
    ensures AllReceivable(Two(one, two)) <==> one >= 0 && two >= 0
  {
    assert Two(one, two)[0] in Two(one, two) && Two(one, two)[1] in Two(one, two);
  }

  /** The one client of the exchange reads this from the packet that reaches it. */
  ghost predicate Reads(cfg: Cfg, steps: seq<Step>, client: Endpoint, g: Sig, result: Arg)
    requires ValidCfg(cfg)
  {
    var w := WireRun(cfg, steps);
    && |w.delivered| == 1 && w.delivered[0].dest == To(client)
    && exists response ::
         && Framing.Unframe(w.delivered[0].body) == Ok((response, []))
         && Reply(ClientStubFor(g).accessor, response) == Ok(result)
  }

  ghost predicate ReadsText(cfg: Cfg, steps: seq<Step>, client: Endpoint, g: Sig, text: bytes)
    requires ValidCfg(cfg)
  {
    IsC(text) && Reads(cfg, steps, client, g, StrArg(text))
  }

  lemma AnswerReads(cfg: Cfg, steps: seq<Step>, to: Endpoint, j: nat, i: nat)
    requires ValidCfg(cfg) && j < |steps| && steps[j].Call? && i < |cfg.servers|
    requires var w := WireRun(cfg, steps);
      |w.delivered| == 1 && w.delivered[0].dest == To(to) && exists response ::
        Answers(cfg, steps, w.delivered[0], j, i, response)
    ensures Reads(cfg, steps, to, steps[j].sig, AsRead(cfg.servers[i].impl(steps[j].sig.name, steps[j].args)))
  {
    hide ValidCfg, CanCall, WireRun, Framing.Unframe, Reply, ClientStubFor, HdrInt, HdrStr, Serves, AsRead;
    var response :| Answers(cfg, steps, WireRun(cfg, steps).delivered[0], j, i, response);
  }

  /** The client's call of any operation, from start-up to what it reads. */
  lemma ExchangeReads(broker: Address, ep: Endpoint, client: Endpoint, g: Sig, id: int, args: seq<Arg>)
    requires Apart(broker, ep, client) && g in Iface() && Typed(g, args) && FitsFrame(Request(id, client, g.name, args))
    requires AllReceivable(args)
    ensures ValidCfg(OwnCfg(broker, ep))
    ensures Reads(OwnCfg(broker, ep), Exchange(0, client, g, id, args), client, g, AsRead(Service(g.name, args)))
  {
    hide ValidCfg, CanCall, WireRun, Answers, Reads, Serves, AllReceivable, Service, AsRead, Exchange, Apart, Iface,
      FitsFrame, Typed;
    OwnCall(broker, ep, client, g, id, args);
    ExchangeSteps(0, client, g, id, args);
    ExchangeCompletes(OwnCfg(broker, ep), 0, client, g, id, args);
    AnswerReads(OwnCfg(broker, ep), Exchange(0, client, g, id, args), client, 3, 0);
  }

  /** add, of any two non-negative ints whose sum is an int. */
  lemma AddReturned(broker: Address, ep: Endpoint, client: Endpoint, id: int, one: int, two: int)
    requires Apart(broker, ep, client) && ModestEndpoint(client) && 0 <= id < 0x8000_0000
    requires IsInt32(one) && IsInt32(two) && one >= 0 && two >= 0 && IsInt32(one + two)
    ensures ValidCfg(OwnCfg(broker, ep))
    ensures Reads(OwnCfg(broker, ep), Exchange(0, client, Add(), id, Two(one, two)), client, Add(), IntArg(one + two))
  {
    hide ValidCfg, Reads, Service, Apart, ModestEndpoint, Iface, FitsFrame, Served, Typed;
    SumCall(broker, ep, client, Add(), id, one, two);
    NonNegativeReceivable(one, two);
    ExchangeReads(broker, ep, client, Add(), id, Two(one, two));
    SumResults(one, two);
  }

  /** client.c's add(20, 199), for any endpoints and any message id. */
  lemma SumReturned(broker: Address, ep: Endpoint, client: Endpoint, id: int)
    requires Apart(broker, ep, client) && ModestEndpoint(client) && 0 <= id < 0x8000_0000
    ensures ValidCfg(OwnCfg(broker, ep))
    ensures Reads(OwnCfg(broker, ep), Exchange(0, client, Add(), id, Two(20, 199)), client, Add(), IntArg(219))
  {
    hide ValidCfg, Reads, Apart, ModestEndpoint, Exchange;
    AddReturned(broker, ep, client, id, 20, 199);
  }

  /** diffirence, of any two non-negative ints: their difference, or 0 for a negative one. */
  lemma DifferenceReturned(broker: Address, ep: Endpoint, client: Endpoint, id: int, one: int, two: int)
    requires Apart(broker, ep, client) && ModestEndpoint(client) && 0 <= id < 0x8000_0000
    requires IsInt32(one) && IsInt32(two) && one >= 0 && two >= 0
    ensures ValidCfg(OwnCfg(broker, ep))
    ensures Reads(OwnCfg(broker, ep), Exchange(0, client, Difference(), id, Two(one, two)), client, Difference(),
      IntArg(if one <= two then two - one else 0))
  {
    hide ValidCfg, Reads, Service, Apart, ModestEndpoint, Iface, FitsFrame, Served, Typed;
    SumCall(broker, ep, client, Difference(), id, one, two);
    NonNegativeReceivable(one, two);
    ExchangeReads(broker, ep, client, Difference(), id, Two(one, two));
    SumResults(one, two);
  }

  /** client.c's echo, of any string that fits: the client reads it backwards. */
  lemma EchoReturned(broker: Address, ep: Endpoint, client: Endpoint, id: int, s: bytes)
    requires Apart(broker, ep, client) && IsC(s) && FitsFrame(Request(id, client, "echo", [StrArg(s)]))
    ensures ValidCfg(OwnCfg(broker, ep))
    ensures ReadsText(OwnCfg(broker, ep), Exchange(0, client, Echo(), id, [StrArg(s)]), client, Echo(), Backwards(s))
  {
    hide ValidCfg, Reads, Service, Apart, FitsFrame;
    EchoTyped(s);
    ExchangeReads(broker, ep, client, Echo(), id, [StrArg(s)]);
    EchoResult(s);
  }

  lemma EchoTyped(s: bytes)
    requires IsC(s)
    ensures Echo() in Iface() && Typed(Echo(), [StrArg(s)]) && AllReceivable([StrArg(s)])
  {
  }

  /** The two operations without parameters. */
  lemma TextsReturned(broker: Address, ep: Endpoint, client: Endpoint, id: int)
    requires Apart(broker, ep, client) && ModestEndpoint(client) && 0 <= id < 0x8000_0000
    ensures ValidCfg(OwnCfg(broker, ep))
    ensures ReadsText(OwnCfg(broker, ep), Exchange(0, client, GetServerDate(), id, []), client, GetServerDate(),
      "20 jan 2012")
    ensures ReadsText(OwnCfg(broker, ep), Exchange(0, client, GetBrokerName(), id, []), client, GetBrokerName(),
      "broker v1")
  {
    hide ValidCfg, Reads, Service, Apart, ModestEndpoint, Iface, FitsFrame, Typed, Exchange;
    NoArguments(client, id);
    TextResults([]);
    ExchangeReads(broker, ep, client, GetServerDate(), id, []);
    ExchangeReads(broker, ep, client, GetBrokerName(), id, []);
  }

  lemma NoArguments(client: Endpoint, id: int)
    requires ModestEndpoint(client) && 0 <= id < 0x8000_0000
    ensures GetServerDate() in Iface() && Typed(GetServerDate(), []) && GetServerDate().name == "getServerDate"
    ensures GetBrokerName() in Iface() && Typed(GetBrokerName(), []) && GetBrokerName().name == "getBrokerName"
    ensures FitsFrame(Request(id, client, GetServerDate().name, []))
    ensures FitsFrame(Request(id, client, GetBrokerName().name, [])) && AllReceivable([])
  {
    hide FitsFrame, Add, Echo, SayHello, SayDog, Difference;
    NamesAreC();
    RequestFits(id, client, GET_SERVER_DATE, []);
    RequestFits(id, client, GET_BROKER_NAME, []);
  }

  /** sayHello, of any age that is not negative and any name that fits. */
  lemma HelloReturned(broker: Address, ep: Endpoint, client: Endpoint, id: int, age: int, name: bytes)
    requires Apart(broker, ep, client) && IsInt32(age) && age >= 0 && IsC(name)
    requires FitsFrame(Request(id, client, "sayHello", [IntArg(age), StrArg(name)]))
    ensures ValidCfg(OwnCfg(broker, ep))
    ensures ReadsText(OwnCfg(broker, ep), Exchange(0, client, SayHello(), id, [IntArg(age), StrArg(name)]), client,
      SayHello(), "sayHello()")
  {
    hide ValidCfg, Reads, Service, Apart, Iface, FitsFrame, Exchange, Typed;
    var args := [IntArg(age), StrArg(name)];
    HelloTyped(age, name);
    TextResults(args);
    ExchangeReads(broker, ep, client, SayHello(), id, args);
  }

  lemma HelloTyped(age: int, name: bytes)
    requires IsInt32(age) && age >= 0 && IsC(name)
    ensures SayHello() in Iface() && SayHello().name == "sayHello"
    ensures Typed(SayHello(), [IntArg(age), StrArg(name)]) && AllReceivable([IntArg(age), StrArg(name)])
  {
  }

  /** sayDog, of any four strings that fit: the client reads them joined in order. */
  lemma DogReturned(broker: Address, ep: Endpoint, client: Endpoint, id: int, one: bytes, two: bytes, three: bytes,
      four: bytes)
    requires Apart(broker, ep, client) && IsC(one) && IsC(two) && IsC(three) && IsC(four)
    requires FitsFrame(Request(id, client, "sayDog", Strings4(one, two, three, four)))
    ensures ValidCfg(OwnCfg(broker, ep))
    ensures ReadsText(OwnCfg(broker, ep), Exchange(0, client, SayDog(), id, Strings4(one, two, three, four)), client,
      SayDog(), one + two + three + four)
  {
    hide ValidCfg, Reads, Service, Apart, Iface, FitsFrame, Exchange, Typed, IsC, Strings4;
    DogTyped(one, two, three, four);
    JoinedFits(Request(id, client, "sayDog", Strings4(one, two, three, four)), one, two, three, four);
    DogResult(one, two, three, four);
    ExchangeReads(broker, ep, client, SayDog(), id, Strings4(one, two, three, four));
  }

  lemma DogTyped(one: bytes, two: bytes, three: bytes, four: bytes)
    requires IsC(one) && IsC(two) && IsC(three) && IsC(four)
    ensures SayDog() in Iface() && SayDog().name == "sayDog"
    ensures Typed(SayDog(), Strings4(one, two, three, four)) && AllReceivable(Strings4(one, two, three, four))
  {
  }

  /** diffirence(578, 200) is -378; the client reads 0. */
  lemma DifferenceLost(broker: Address, ep: Endpoint, client: Endpoint, id: int)
    requires Apart(broker, ep, client) && ModestEndpoint(client) && 0 <= id < 0x8000_0000
    ensures ValidCfg(OwnCfg(broker, ep))
    ensures Service("diffirence", Two(578, 200)) == IntArg(-378)
    ensures Reads(OwnCfg(broker, ep), Exchange(0, client, Difference(), id, Two(578, 200)), client, Difference(),
      IntArg(0))
  {
    hide ValidCfg, Reads, Apart, ModestEndpoint, Exchange, Service;
    DifferenceReturned(broker, ep, client, id, 578, 200);
    SumResults(578, 200);
  }

  /** add(-1, 2) kills the server. */
  lemma NegativeArgumentKills(broker: Address, ep: Endpoint, client: Endpoint, id: int)
    requires Apart(broker, ep, client) && ModestEndpoint(client) && 0 <= id < 0x8000_0000
    ensures ValidCfg(OwnCfg(broker, ep))
    ensures var w := WireRun(OwnCfg(broker, ep), FatalCall(0, client, Add(), id, Two(-1, 2)));
      w.dead == {0} && w.delivered == []
  {
    hide ValidCfg, WireRun, CanCall, Serves, AllReceivable;
    SumCall(broker, ep, client, Add(), id, -1, 2);
    NonNegativeReceivable(-1, 2);
    ServerKilled(OwnCfg(broker, ep), 0, client, Add(), id, Two(-1, 2));
  }

  /** add(20, 199) and add(1, 2), called by different clients under the same id, can be confused. */
  lemma SampleCrossed(broker: Address, ep: Endpoint, first: Endpoint, second: Endpoint, id: int)
    requires Apart(broker, ep, first) && Apart(broker, ep, second) && first != second && 0 <= id < 0x8000_0000
    requires ModestEndpoint(first) && ModestEndpoint(second)
    ensures Crossed(OwnCfg(broker, ep), 0, first, second, Add(), id, Two(20, 199), Two(1, 2))
    ensures Service(ADD, Two(1, 2)) == IntArg(3)
  {
    hide Served, AllReceivable, Service, Apart;
    SumCall(broker, ep, first, Add(), id, 20, 199);
    SumCall(broker, ep, second, Add(), id, 1, 2);
    NonNegativeReceivable(1, 2);
    SumResults(20, 199);
    SumResults(1, 2);
  }

  /**
  Two clients that draw the same id: one calls add(20, 199), the other add(1, 2), and the first one
  reads 3.
  */
  lemma WrongSum(broker: Address, ep: Endpoint, first: Endpoint, second: Endpoint, id: int)
    requires Apart(broker, ep, first) && Apart(broker, ep, second) && first != second && 0 <= id < 0x8000_0000
    requires ModestEndpoint(first) && ModestEndpoint(second)
    ensures ValidCfg(OwnCfg(broker, ep))
    ensures var steps := Crossing(0, first, second, Add(), id, Two(20, 199), Two(1, 2));
      && Reads(OwnCfg(broker, ep), steps, first, Add(), IntArg(3))
      && steps[3] == Call(first, Add(), id, Two(20, 199))
      && forall i, response :: !Answers(OwnCfg(broker, ep), steps,
        WireRun(OwnCfg(broker, ep), steps).delivered[0], 3, i, response)
  {
    hide ValidCfg, CanCall, WireRun, Serves, AllReceivable, Service, Crossing, AsRead, Answers, Apart;
    SampleCrossed(broker, ep, first, second, id);
    CrossingSteps(0, first, second, Add(), id, Two(20, 199), Two(1, 2));
    Crosstalk(OwnCfg(broker, ep), 0, first, second, Add(), id, Two(20, 199), Two(1, 2));
    AnswerReads(OwnCfg(broker, ep), Crossing(0, first, second, Add(), id, Two(20, 199), Two(1, 2)), first, 4, 0);
    PositiveRead(3);
  }

  lemma PositiveRead(i: int)
    requires IsInt32(i) && i >= 0
    ensures AsRead(IntArg(i)) == IntArg(i)
  {
  }

  // ---------- A parameter that hides a name ----------

  const F: bytes := "f"

  /** int f(int message_id); */
  function HiddenId(): Sig
  {
    Sig(CInt, F, [Param(CInt, "message_id")])
  }

  lemma HiddenIdLegal()
    ensures LegalIface([HiddenId()]) && !ServerClear(HiddenId()) && ClientClear(HiddenId())
    ensures IsC(F) && |F| == 1
  {
    var g := HiddenId();
    assert g.params[0] in g.params;
    assert |F| == 1 && |MESSAGE_ID_VAR| == 10;
    HiddenIdName();
    assert GoodSig(g);
  }

  lemma HiddenIdName()
    ensures IsWord(MESSAGE_ID_VAR) && ',' !in MESSAGE_ID_VAR && !IsTaken(MESSAGE_ID_VAR) && !IsHidden(F)
    ensures MESSAGE_ID_VAR != AccessorName(CInt)
    ensures MESSAGE_ID_VAR !in {BROKER_ADDRESS_VAR, BROKER_PORT_VAR, WAIT_PORT_VAR}
  {
    assert MESSAGE_ID_VAR[0] == 'm' && |AccessorName(CInt)| == 11;
  }

  /** The answer to f(v) carries v for its id. */
  lemma HiddenIdAnswer(host: Host, m: Msg, v: int)
    requires FitsFrame(m) && m.Request? && m.op == F && IsInt32(v) && v >= 0 && m.args == [IntArg(v)]
    requires OfType(host.impl(F, m.args), CInt)
    ensures GoodStubs(StubsFor([HiddenId()])) && IsC(F)
    ensures HandleRequest(StubsFor([HiddenId()]), host, Bytes(m)) ==
      Ok([Send(host.broker.address, host.broker.port, Bytes(Response(v, F, host.impl(F, m.args))))])
  {
    HiddenIdLegal();
    var g := HiddenId();
    hide HandleRequest, CallStub, Bytes, ResponseBytes, Directive, GoodSig, LegalIface;
    OneBlockAnswers([g], host, m, 0);
    assert g in [g];
    HiddenIdTyped(v);
    StubAnswers(g, host, m.id, m.args) by { LegalGood([g], g); }
    HiddenIdContext(host.broker, m.id, v);
    ResponseWire(F, v, host.impl(F, m.args));
  }

  lemma LegalGood(iface: seq<Sig>, g: Sig)
    requires LegalIface(iface) && g in iface
    ensures GoodSig(g)
  {
  }

  lemma HiddenIdTyped(v: int)
    requires IsInt32(v) && v >= 0
    ensures Typed(HiddenId(), [IntArg(v)]) && AllReceivable([IntArg(v)]) && NoParamsVar(HiddenId(), 0)
  {
    assert |MESSAGE_ID_VAR| != |PARAMS_VAR|;
  }

  lemma HiddenIdContext(broker: Address, id: int, v: int)
    requires IsInt32(id) && IsInt32(v) && IsC(F)
    ensures BlockContext(ParamNames(HiddenId().params), [IntArg(v)], broker, Some(id), F) == Ok(Context(v, F, broker))
  {
    var names := ParamNames(HiddenId().params);
    assert names == [MESSAGE_ID_VAR];
    assert |MESSAGE_ID_VAR| != |OPERATION_VAR| && |MESSAGE_ID_VAR| != |BROKER_ADDRESS_VAR| &&
      |MESSAGE_ID_VAR| != |BROKER_PORT_VAR|;
  }

  function HiddenRequest(from: Endpoint, id: int, v: int): Msg
    requires IsInt32(v)
  {
    Request(id, from, F, [IntArg(v)])
  }

  lemma HiddenIdSent(broker: Address, from: Endpoint, id: int, v: int)
    requires ModestEndpoint(from) && 0 <= id < 0x8000_0000 && 0 <= v < 0x8000_0000
    ensures var m := HiddenRequest(from, id, v);
      && FitsFrame(m) && GoodMsg(m) && GoodSig(HiddenId()) && Typed(HiddenId(), m.args) && GoodEndpoint(from)
      && ClientRequest(HiddenId(), id, from, broker, m.args) == Ok(ClientCall(broker, from.port, Bytes(m)))
  {
    hide GoodSig, LegalIface, ClientRequest, CallContext, Typed, FitsFrame, ClientClear, Bytes, GoodEndpoint;
    HiddenIdLegal();
    LegalGood([HiddenId()], HiddenId());
    HiddenIdTyped(v);
    HiddenIdFits(from, id, v);
    ClientRequestWire(HiddenId(), id, from, broker, [IntArg(v)]);
    ClearCallContext(HiddenId(), [IntArg(v)], from, broker);
    WholeMsg(HiddenRequest(from, id, v));
  }

  /** The broker has no entry for the id that the answer carries. */
  lemma HiddenIdUnmatched(st: BrokerState, v: int, result: Arg)
    requires 0 <= v < 0x8000_0000 && IsC(F) && forall e | e in st.pending :: !Matches(e, v, F)
    ensures BrokerStep(st, Bytes(Response(v, F, result))) == (st, Abort)
  {
    hide BrokerStep, Bytes;
    NoEntry(st.pending, v, F);
    ResponseAtBroker(st, Response(v, F, result));
  }

  /** What a call of f makes the server send, and the broker do about it. */
  ghost predicate HiddenIdFails(st: BrokerState, host: Host, m: Msg, response: bytes)
    requires GoodMsg(m) && GoodStubs(StubsFor([HiddenId()]))
  {
    && HandleRequest(StubsFor([HiddenId()]), host, Bytes(m)) ==
      Ok([Send(host.broker.address, host.broker.port, response)])
    && BrokerStep(st, response) == (st, Abort)
  }

  /**
  A call of f stops the broker: the request is sent, entered and forwarded under its own id, the
  server answers under the id that the argument gives, and the broker, which has no entry for it,
  sends the answer to an address that was never set.
  */
  lemma HiddenIdStopsBroker(st: BrokerState, reg: ServiceReg, to: Endpoint, host: Host, from: Endpoint, id: int, v: int)
    requires ModestEndpoint(from) && 0 <= id < 0x8000_0000 && 0 <= v < 0x8000_0000 && v != id
    requires Route(st.svc, F) == Ok(Some(reg)) && Destination(reg) == Ok(Some(to))
    requires forall e | e in st.pending :: !Matches(e, v, F)
    requires OfType(host.impl(F, [IntArg(v)]), CInt)
    ensures var m := HiddenRequest(from, id, v);
      var st' := st.(pending := st.pending + [PendingOf(m)]);
      && GoodMsg(m) && GoodSig(HiddenId()) && Typed(HiddenId(), m.args) && GoodEndpoint(from)
      && ClientRequest(HiddenId(), id, from, host.broker, m.args) == Ok(ClientCall(host.broker, from.port, Bytes(m)))
      && BrokerStep(st, Bytes(m)) == (st', Ok([Send(to.address, to.port, Bytes(m))]))
      && GoodStubs(StubsFor([HiddenId()])) && exists response :: HiddenIdFails(st', host, m, response)
  {
    hide GoodSig, HandleRequest, BrokerStep, ClientRequest, Route, Destination, Typed, FitsFrame, Bytes, GoodEndpoint,
      StubsFor;
    var m := HiddenRequest(from, id, v);
    HiddenIdSent(host.broker, from, id, v);
    HiddenIdLegal();
    RequestAtBroker(st, m);
    HiddenIdAnswer(host, m, v);
    var st' := st.(pending := st.pending + [PendingOf(m)]);
    HiddenIdUnmatched(st', v, host.impl(F, m.args));
    assert HiddenIdFails(st', host, m, Bytes(Response(v, F, host.impl(F, m.args))));
  }

  lemma NoEntry(pending: seq<ClientReg>, id: int, op: bytes)
    requires forall e | e in pending :: !Matches(e, id, op)
    ensures FirstMatch(pending, id, op) == |pending|
  {
  }

  lemma HiddenIdFits(from: Endpoint, id: int, v: int)
    requires ModestEndpoint(from) && IsC(F) && |F| == 1 && 0 <= id < 0x8000_0000 && IsInt32(v)
    ensures GoodEndpoint(from) && FitsFrame(Request(id, from, F, [IntArg(v)])) &&
      GoodMsg(Request(id, from, F, [IntArg(v)]))
  {
    RequestFits(id, from, F, [IntArg(v)]);
  }
}
