/**
Four runs step by step: one in which a call completes, one in which a registration stops the broker,
one in which a call kills its server, and one in which two callers that drew the same message id are
mixed up.
*/
module Exchanges {
  import Client
  import Framing
  import MsgPack
  import opened Common
  import opened Formats
  import opened Generators
  import opened Broker
  import opened Messages
  import opened Rpc
  import opened Protocol
  import opened Invariants
  import opened System
  import opened Steps
  import opened Theorems

  // ---------- One step at a time ----------

  lemma RunStart(cfg: Cfg)
    ensures Run(cfg, []) == InitWorld(cfg)
  {
  }

  lemma RunSnoc(cfg: Cfg, steps: seq<Step>, step: Step)
    ensures Run(cfg, steps + [step]) == Apply(cfg, Run(cfg, steps), step)
  {
    assert (steps + [step])[..|steps|] == steps;
  }

  /** A registration travels to the broker, and the acknowledgement back. */
  lemma Handshake(cfg: Cfg, w: World, i: nat)
    requires i < |cfg.servers| == |w.registered| && ServerAt(cfg.servers, cfg.servers[i].ep) == i && w.net == [] &&
      i !in w.dead && !w.crashed && [] !in cfg.servers[i].table
    ensures var w' := Apply(cfg, Apply(cfg, Apply(cfg, w, Register(i)), Deliver(0)), Deliver(0));
      w' == w.(broker := w.broker.(svc := w.broker.svc + [RegRecord(cfg.servers[i])]),
        registered := w.registered[i := true])
  {
    hide CanCall, ServerAt, RegOf;
    var s := cfg.servers[i];
    ReversedTwice(s.table);
    var w1 := Apply(cfg, w, Register(i));
    assert w1.net == [Packet(ToBroker, RegMsg(s))];
    var w2 := Apply(cfg, w1, Deliver(0));
    assert w2.net == [Packet(To(s.ep), Ack)];
    assert Apply(cfg, w2, Deliver(0)).net == [];
  }

  function HandshakeSteps(i: nat): seq<Step>
  {
    [Register(i), Deliver(0), Deliver(0)]
  }

  /** Server i is up and registered, no other server is, and its record is the broker's only one. */
  ghost predicate Ready(cfg: Cfg, w: World, i: nat)
  {
    && i < |cfg.servers| == |w.registered| && w.registered[i] && w.dead == {} && !w.crashed
    && (forall i' | 0 <= i' < |w.registered| && w.registered[i'] :: i' == i)
    && w.broker.svc == [RegRecord(cfg.servers[i])]
  }

  lemma AfterHandshake(cfg: Cfg, i: nat)
    requires ValidCfg(cfg) && i < |cfg.servers| && [] !in cfg.servers[i].table
    ensures var w := Run(cfg, HandshakeSteps(i));
      Ready(cfg, w, i) && w.net == [] && w.delivered == [] && w.broker.pending == []
  {
    hide Run, Apply, ValidCfg, RegRecord, ServerAt;
    EndpointsDiffer(cfg, i);
    RunStart(cfg);
    RunSnoc(cfg, [], Register(i));
    RunSnoc(cfg, [Register(i)], Deliver(0));
    RunSnoc(cfg, [Register(i), Deliver(0)], Deliver(0));
    assert [] + [Register(i)] == [Register(i)];
    assert [Register(i)] + [Deliver(0)] == [Register(i), Deliver(0)];
    assert [Register(i), Deliver(0)] + [Deliver(0)] == HandshakeSteps(i);
    Handshake(cfg, InitWorld(cfg), i);
  }

  lemma TableRouted(s: ServerCfg, op: MsgPack.bytes)
    requires op in s.table && [] !in s.table
    ensures RoutesTo([RegRecord(s)], op, s.ep)
  {
    var r := RegRecord(s);
    RecordWritten(s);
    var k :| 0 <= k < |s.table| && s.table[k] == op;
    assert r.services[|s.table| - 1 - k] == At(op);
    ListsOpMeaning(r.services, op);
  }

  lemma CallMade(cfg: Cfg, w: World, client: Endpoint, sig: Sig, id: int, args: seq<Arg>)
    requires |w.registered| == |cfg.servers| && CanCall(cfg, client, sig, id, args)
    ensures var q := Request(id, client, sig.name, args);
      Apply(cfg, w, Call(client, sig, id, args)) == w.(net := w.net + [Packet(ToBroker, q)], calls := w.calls + [q])
  {
    hide CanCall;
  }

  lemma RequestForwarded(cfg: Cfg, w: World, i: nat, k: nat, q: Msg)
    requires Ready(cfg, w, i) && q.Request? && q.op in cfg.servers[i].table && [] !in cfg.servers[i].table
    requires k < |w.net| && w.net[k] == Packet(ToBroker, q)
    ensures Apply(cfg, w, Deliver(k)) == w.(
      net := RemoveAt(w.net, k) + [Packet(To(cfg.servers[i].ep), q)],
      broker := w.broker.(pending := w.broker.pending + [PendingOf(q)]),
      arrivals := w.arrivals + [PendingOf(q)])
  {
    TableRouted(cfg.servers[i], q.op);
    hide CanCall, ServerAt, Route, RegRecord;
  }

  lemma RequestServed(cfg: Cfg, w: World, i: nat, k: nat, q: Msg)
    requires Ready(cfg, w, i) && ServerAt(cfg.servers, cfg.servers[i].ep) == i
    requires q.Request? && Implements(cfg.servers[i].iface, q.op) && AllReceivable(q.args)
    requires k < |w.net| && w.net[k] == Packet(To(cfg.servers[i].ep), q)
    ensures Apply(cfg, w, Deliver(k)) == w.(
      net := RemoveAt(w.net, k) + [Packet(ToBroker, Response(q.id, q.op, cfg.servers[i].impl(q.op, q.args)))])
  {
    hide CanCall, ServerAt, Route, RegRecord, Implements, AllReceivable;
  }

  /** The response leaves for the oldest entry, here the first one of the list. */
  lemma ResponseForwarded(cfg: Cfg, w: World, k: nat, m: Msg, q: Msg)
    requires |w.registered| == |cfg.servers| && !w.crashed && q.Request? && m.Response? && KeyOf(q) == KeyOf(m)
    requires w.broker.pending != [] && w.broker.pending[0] == PendingOf(q)
    requires k < |w.net| && w.net[k] == Packet(ToBroker, m)
    ensures Apply(cfg, w, Deliver(k)) == w.(
      net := RemoveAt(w.net, k) + [Packet(To(q.from), m)],
      broker := w.broker.(pending := w.broker.pending[1..]),
      answered := w.answered + [PendingOf(q)])
  {
    hide CanCall, ServerAt, Route;
    FirstMatchIs(w.broker.pending, m.id, m.op, 0);
    assert RemoveAt(w.broker.pending, 0) == w.broker.pending[1..];
  }

  lemma ResponseDelivered(cfg: Cfg, w: World, k: nat, client: Endpoint, m: Msg)
    requires |w.registered| == |cfg.servers| && !IsServer(cfg, client)
    requires k < |w.net| && w.net[k] == Packet(To(client), m)
    ensures Apply(cfg, w, Deliver(k)) ==
      w.(net := RemoveAt(w.net, k), delivered := w.delivered + [Packet(To(client), m)])
  {
    hide CanCall, ServerAt, Route;
  }

  // ---------- A call completes ----------

  /** One server starts, registers and is acknowledged; one client calls it and gets its answer. */
  function Exchange(i: nat, client: Endpoint, sig: Sig, id: int, args: seq<Arg>): seq<Step>
  {
    HandshakeSteps(i) + [Call(client, sig, id, args)] + [Deliver(0)] + [Deliver(0)] + [Deliver(0)] + [Deliver(0)]
  }

  lemma ExchangeSteps(i: nat, client: Endpoint, sig: Sig, id: int, args: seq<Arg>)
    ensures var steps := Exchange(i, client, sig, id, args); |steps| == 8 && steps[3] == Call(client, sig, id, args)
  {
  }

  /** A call that the server of this exchange implements and advertises. */
  ghost predicate Served(cfg: Cfg, i: nat, client: Endpoint, sig: Sig, id: int, args: seq<Arg>)
  {
    && ValidCfg(cfg) && i < |cfg.servers| && CanCall(cfg, client, sig, id, args)
    && Serves(cfg.servers[i], sig.name)
  }

  /** The world after the exchange: the answer is at the client and nothing is left behind. */
  lemma AfterExchange(cfg: Cfg, i: nat, client: Endpoint, sig: Sig, id: int, args: seq<Arg>)
    requires Served(cfg, i, client, sig, id, args) && AllReceivable(args)
    ensures var w := Run(cfg, Exchange(i, client, sig, id, args));
      && w.net == [] && w.broker.pending == [] && w.registered[i] && w.dead == {} && !w.crashed
      && w.delivered == [Packet(To(client), Response(id, sig.name, cfg.servers[i].impl(sig.name, args)))]
  {
    assert !IsServer(cfg, client);
    var s, q := cfg.servers[i], Request(id, client, sig.name, args);
    var m := Response(id, sig.name, s.impl(sig.name, args));
    hide Run, Apply, CanCall, ValidCfg, Implements, RegRecord, IsServer, AllReceivable;
    EndpointsDiffer(cfg, i);
    AfterHandshake(cfg, i);
    var h := HandshakeSteps(i);
    var c, d := Call(client, sig, id, args), Deliver(0);
    var w0 := Run(cfg, h);
    RunSnoc(cfg, h, c);
    CallMade(cfg, w0, client, sig, id, args);
    var w1 := Run(cfg, h + [c]);
    RunSnoc(cfg, h + [c], d);
    RequestForwarded(cfg, w1, i, 0, q);
    var w2 := Run(cfg, h + [c] + [d]);
    RunSnoc(cfg, h + [c] + [d], d);
    RequestServed(cfg, w2, i, 0, q);
    var w3 := Run(cfg, h + [c] + [d] + [d]);
    RunSnoc(cfg, h + [c] + [d] + [d], d);
    ResponseForwarded(cfg, w3, 0, m, q);
    var w4 := Run(cfg, h + [c] + [d] + [d] + [d]);
    RunSnoc(cfg, h + [c] + [d] + [d] + [d], d);
    ResponseDelivered(cfg, w4, 0, client, m);
  }

  /** What a client may send is a call of a declared function that fits its frame. */
  lemma CallIsGood(cfg: Cfg, client: Endpoint, sig: Sig, id: int, args: seq<Arg>)
    requires CanCall(cfg, client, sig, id, args)
    ensures var q := Request(id, client, sig.name, args); GoodCall(cfg, q) && Callable(cfg, q, sig)
  {
    hide FitsFrame;
    assert Callable(cfg, Request(id, client, sig.name, args), sig);
  }

  /** When the answer to the call of step j has reached some client, that client can read it. */
  lemma ReadAnswer(cfg: Cfg, steps: seq<Step>, k: nat, j: nat, i: nat)
    requires j < |steps| && steps[j].Call?
    requires var c := steps[j]; Served(cfg, i, c.client, c.sig, c.id, c.args)
    requires k < |Run(cfg, steps).delivered| && Run(cfg, steps).registered[i]
    requires var c := steps[j];
      Run(cfg, steps).delivered[k].body == Response(c.id, c.sig.name, cfg.servers[i].impl(c.sig.name, c.args))
    ensures WireRun(cfg, steps) == Wire(Run(cfg, steps))
    ensures exists response :: Answers(cfg, steps, WireRun(cfg, steps).delivered[k], j, i, response)
  {
    var c := steps[j];
    var q := Request(c.id, c.client, c.sig.name, c.args);
    assert CallOf(cfg, steps, j, q) && c.sig in cfg.header;
    hide Run, WireRun, CanCall, ValidCfg, FitsFrame, GoodCall, Callable, Implements, Answers, WireBody;
    Refinement(cfg, steps);
    CallIsGood(cfg, c.client, c.sig, c.id, c.args);
    var s := SameDeclaration(cfg, q, i);
    CallableDeclared(cfg, q, cfg.servers[i].iface[s]);
    OneDeclaration(cfg, c.sig, cfg.servers[i].iface[s]);
    AnswersOnWire(cfg, steps, Run(cfg, steps).delivered[k], j, q, i);
    assert WireRun(cfg, steps).delivered[k] == WirePacket(Run(cfg, steps).delivered[k]);
  }

  lemma CallableDeclared(cfg: Cfg, q: Msg, g: Sig)
    requires q.Request? && Callable(cfg, q, g)
    ensures g in cfg.header && g.name == q.op
  {
  }

  /**
  The exchange completes: in eight steps a server that advertises and implements the operation
  registers, is called and answers, and the client gets the result of its call.
  */
  lemma ExchangeCompletes(cfg: Cfg, i: nat, client: Endpoint, sig: Sig, id: int, args: seq<Arg>)
    requires Served(cfg, i, client, sig, id, args) && AllReceivable(args)
    ensures var w := WireRun(cfg, Exchange(i, client, sig, id, args));
      && !w.crashed && w.dead == {} && w.net == [] && w.broker.pending == []
      && |w.delivered| == 1 && w.delivered[0].dest == To(client)
      && exists response :: Answers(cfg, Exchange(i, client, sig, id, args), w.delivered[0], 3, i, response)
  {
    hide Run, WireRun, CanCall, ValidCfg, Answers, Implements, WireBody;
    var steps := Exchange(i, client, sig, id, args);
    AfterExchange(cfg, i, client, sig, id, args);
    ReadAnswer(cfg, steps, 0, 3, i);
  }

  // ---------- A registration that stops the broker ----------

  /** A server whose table has an empty name registers. */
  function FatalRegistration(i: nat): seq<Step>
  {
    [Register(i)] + [Deliver(0)]
  }

  /** The broker fails before it acknowledges anything. */
  lemma BrokerStopped(cfg: Cfg, i: nat)
    requires ValidCfg(cfg) && i < |cfg.servers| && [] in cfg.servers[i].table
    ensures var w := WireRun(cfg, FatalRegistration(i)); w.crashed && w.net == []
  {
    hide Run, Apply, ValidCfg, WireRun, RegMsg;
    RunStart(cfg);
    assert [] + [Register(i)] == [Register(i)];
    RunSnoc(cfg, [], Register(i));
    RunSnoc(cfg, [Register(i)], Deliver(0));
    RegistrationSent(cfg, InitWorld(cfg), i);
    RegistrationTaken(cfg, Run(cfg, [Register(i)]), 0, i);
    Refinement(cfg, FatalRegistration(i));
    assert WireNet([]) == [];
  }

  lemma RegistrationSent(cfg: Cfg, w: World, i: nat)
    requires i < |cfg.servers| == |w.registered| && i !in w.dead
    ensures Apply(cfg, w, Register(i)) == w.(net := w.net + [Packet(ToBroker, RegMsg(cfg.servers[i]))])
  {
    hide CanCall;
  }

  // ---------- A call that kills its server ----------

  /** The same start, and a call with a negative argument. */
  function FatalCall(i: nat, client: Endpoint, sig: Sig, id: int, args: seq<Arg>): seq<Step>
  {
    HandshakeSteps(i) + [Call(client, sig, id, args)] + [Deliver(0)] + [Deliver(0)]
  }

  lemma RequestKills(cfg: Cfg, w: World, i: nat, k: nat, q: Msg)
    requires Ready(cfg, w, i) && ServerAt(cfg.servers, cfg.servers[i].ep) == i
    requires q.Request? && Implements(cfg.servers[i].iface, q.op) && !AllReceivable(q.args)
    requires k < |w.net| && w.net[k] == Packet(To(cfg.servers[i].ep), q)
    ensures Apply(cfg, w, Deliver(k)) == w.(net := RemoveAt(w.net, k), dropped := w.dropped + [KeyOf(q)], dead := {i})
  {
    hide CanCall, ServerAt, Route, RegRecord, Implements, AllReceivable;
  }

  lemma AfterFatalCall(cfg: Cfg, i: nat, client: Endpoint, sig: Sig, id: int, args: seq<Arg>)
    requires Served(cfg, i, client, sig, id, args) && !AllReceivable(args)
    ensures var w := Run(cfg, FatalCall(i, client, sig, id, args));
      && w.dead == {i} && w.net == [] && w.delivered == []
      && w.broker.pending == [PendingOf(Request(id, client, sig.name, args))]
  {
    var q := Request(id, client, sig.name, args);
    hide Run, Apply, CanCall, ValidCfg, Implements, RegRecord, AllReceivable;
    EndpointsDiffer(cfg, i);
    AfterHandshake(cfg, i);
    var h, c, d := HandshakeSteps(i), Call(client, sig, id, args), Deliver(0);
    RunSnoc(cfg, h, c);
    CallMade(cfg, Run(cfg, h), client, sig, id, args);
    RunSnoc(cfg, h + [c], d);
    RequestForwarded(cfg, Run(cfg, h + [c]), i, 0, q);
    RunSnoc(cfg, h + [c] + [d], d);
    RequestKills(cfg, Run(cfg, h + [c] + [d]), i, 0, q);
  }

  /** A negative argument kills the server; nobody is answered, and the call stays pending. */
  lemma ServerKilled(cfg: Cfg, i: nat, client: Endpoint, sig: Sig, id: int, args: seq<Arg>)
    requires Served(cfg, i, client, sig, id, args) && !AllReceivable(args)
    ensures var w := WireRun(cfg, FatalCall(i, client, sig, id, args));
      && w.dead == {i} && w.net == [] && w.delivered == []
      && w.broker.pending == [PendingOf(Request(id, client, sig.name, args))]
  {
    hide Run, WireRun, CanCall, ValidCfg, Serves, AllReceivable, FatalCall;
    AfterFatalCall(cfg, i, client, sig, id, args);
    Refinement(cfg, FatalCall(i, client, sig, id, args));
    assert WireNet([]) == [];
  }

  // ---------- Two callers, one message id ----------

  /**
  Two clients call the same operation under the same id. The server takes the second request first;
  its answer goes to the first caller.
  */
  function Crossing(i: nat, first: Endpoint, second: Endpoint, sig: Sig, id: int, args: seq<Arg>,
      args': seq<Arg>): seq<Step>
  {
    CrossingStart(i, first, second, sig, id, args, args') + [Deliver(1)] + [Deliver(1)] + [Deliver(1)]
  }

  function CrossingStart(i: nat, first: Endpoint, second: Endpoint, sig: Sig, id: int, args: seq<Arg>,
      args': seq<Arg>): seq<Step>
  {
    HandshakeSteps(i) + [Call(first, sig, id, args)] + [Call(second, sig, id, args')] + [Deliver(0)] + [Deliver(0)]
  }

  /** Its third and fourth steps are the calls. */
  lemma CrossingSteps(i: nat, first: Endpoint, second: Endpoint, sig: Sig, id: int, args: seq<Arg>, args': seq<Arg>)
    ensures var steps := Crossing(i, first, second, sig, id, args, args');
      && |steps| == 10 && steps[3] == Call(first, sig, id, args) && steps[4] == Call(second, sig, id, args')
      && (forall j | 0 <= j < 10 && steps[j].Call? :: j == 3 || j == 4)
      && steps[..3] == HandshakeSteps(i) && steps[..4] == HandshakeSteps(i) + [steps[3]]
  {
  }

  lemma BothForwarded(cfg: Cfg, i: nat, first: Endpoint, second: Endpoint, sig: Sig, id: int, args: seq<Arg>,
      args': seq<Arg>)
    requires Served(cfg, i, first, sig, id, args) && Served(cfg, i, second, sig, id, args')
    ensures var w := Run(cfg, CrossingStart(i, first, second, sig, id, args, args'));
      var q, q' := Request(id, first, sig.name, args), Request(id, second, sig.name, args');
      && Ready(cfg, w, i) && w.delivered == [] && w.broker.pending == [PendingOf(q), PendingOf(q')]
      && w.net == [Packet(To(cfg.servers[i].ep), q), Packet(To(cfg.servers[i].ep), q')]
  {
    var q, q' := Request(id, first, sig.name, args), Request(id, second, sig.name, args');
    hide Run, Apply, CanCall, ValidCfg, Implements, RegRecord, IsServer;
    AfterHandshake(cfg, i);
    var h := HandshakeSteps(i);
    var c, c', d := Call(first, sig, id, args), Call(second, sig, id, args'), Deliver(0);
    var w0 := Run(cfg, h);
    RunSnoc(cfg, h, c);
    CallMade(cfg, w0, first, sig, id, args);
    var w1 := Run(cfg, h + [c]);
    RunSnoc(cfg, h + [c], c');
    CallMade(cfg, w1, second, sig, id, args');
    var w2 := Run(cfg, h + [c] + [c']);
    RunSnoc(cfg, h + [c] + [c'], d);
    RequestForwarded(cfg, w2, i, 0, q);
    var w3 := Run(cfg, h + [c] + [c'] + [d]);
    RunSnoc(cfg, h + [c] + [c'] + [d], d);
    RequestForwarded(cfg, w3, i, 0, q');
  }

  /** The second request is served; its answer is taken for one to the first. */
  lemma AnswerAstray(cfg: Cfg, w: World, i: nat, q: Msg, q': Msg)
    requires Ready(cfg, w, i) && ServerAt(cfg.servers, cfg.servers[i].ep) == i && w.delivered == []
    requires q.Request? && q'.Request? && KeyOf(q) == KeyOf(q') && !IsServer(cfg, q.from)
    requires Implements(cfg.servers[i].iface, q.op) && AllReceivable(q'.args)
    requires w.broker.pending == [PendingOf(q), PendingOf(q')]
    requires w.net == [Packet(To(cfg.servers[i].ep), q), Packet(To(cfg.servers[i].ep), q')]
    ensures var w' := Apply(cfg, Apply(cfg, Apply(cfg, w, Deliver(1)), Deliver(1)), Deliver(1));
      && w'.registered == w.registered
      && w'.delivered == [Packet(To(q.from), Response(q.id, q.op, cfg.servers[i].impl(q.op, q'.args)))]
  {
    hide Apply, CanCall, Implements, RegRecord, IsServer, ServerAt, AllReceivable;
    var m' := Response(q.id, q.op, cfg.servers[i].impl(q.op, q'.args));
    RequestServed(cfg, w, i, 1, q');
    var w1 := Apply(cfg, w, Deliver(1));
    assert w1.net[1] == Packet(ToBroker, m');
    ResponseForwarded(cfg, w1, 1, m', q);
    var w2 := Apply(cfg, w1, Deliver(1));
    ResponseDelivered(cfg, w2, 1, q.from, m');
  }

  lemma AfterCrossing(cfg: Cfg, i: nat, first: Endpoint, second: Endpoint, sig: Sig, id: int, args: seq<Arg>,
      args': seq<Arg>)
    requires Served(cfg, i, first, sig, id, args) && Served(cfg, i, second, sig, id, args') && AllReceivable(args')
    ensures var w := Run(cfg, Crossing(i, first, second, sig, id, args, args'));
      && (forall i' | 0 <= i' < |w.registered| :: w.registered[i'] <==> i' == i)
      && w.delivered == [Packet(To(first), Response(id, sig.name, cfg.servers[i].impl(sig.name, args')))]
  {
    assert !IsServer(cfg, first);
    hide Run, Apply, CanCall, ValidCfg, Implements, RegRecord, IsServer, AllReceivable;
    EndpointsDiffer(cfg, i);
    BothForwarded(cfg, i, first, second, sig, id, args, args');
    var h, e := CrossingStart(i, first, second, sig, id, args, args'), Deliver(1);
    RunSnoc(cfg, h, e);
    RunSnoc(cfg, h + [e], e);
    RunSnoc(cfg, h + [e] + [e], e);
    hide CrossingStart;
    AnswerAstray(cfg, Run(cfg, h), i, Request(id, first, sig.name, args), Request(id, second, sig.name, args'));
  }

  /** Two calls that can be confused: the results of server i for them read differently. */
  ghost predicate Crossed(cfg: Cfg, i: nat, first: Endpoint, second: Endpoint, sig: Sig, id: int, args: seq<Arg>,
      args': seq<Arg>)
  {
    && Served(cfg, i, first, sig, id, args) && Served(cfg, i, second, sig, id, args') && AllReceivable(args')
    && first != second
    && AsRead(cfg.servers[i].impl(sig.name, args)) != AsRead(cfg.servers[i].impl(sig.name, args'))
  }

  /**
  Why ids must tell calls apart: when two clients draw the same one, the first can be handed the
  answer to the second one's call, and it is not an answer to its own.
  */
  lemma Crosstalk(cfg: Cfg, i: nat, first: Endpoint, second: Endpoint, sig: Sig, id: int, args: seq<Arg>,
      args': seq<Arg>)
    requires Crossed(cfg, i, first, second, sig, id, args, args')
    ensures var steps := Crossing(i, first, second, sig, id, args, args'); var w := WireRun(cfg, steps);
      && |w.delivered| == 1 && w.delivered[0].dest == To(first)
      && (exists response :: Answers(cfg, steps, w.delivered[0], 4, i, response))
      && forall i', response :: !Answers(cfg, steps, w.delivered[0], 3, i', response)
  {
    hide Run, WireRun, CanCall, ValidCfg, Answers, Implements, WireBody, AllReceivable;
    var steps := Crossing(i, first, second, sig, id, args, args');
    AfterCrossing(cfg, i, first, second, sig, id, args, args');
    ReadAnswer(cfg, steps, 0, 4, i);
    var p := WireRun(cfg, steps).delivered[0];
    var response :| Answers(cfg, steps, p, 4, i, response);
    forall i', response'
      ensures !Answers(cfg, steps, p, 3, i', response')
    {
      if Answers(cfg, steps, p, 3, i', response') {
        OneReading(cfg, steps, p, 3, 4, i', i, response', response);
        assert false;
      }
    }
  }

  /** A packet that answers two calls of one signature gives them results that read the same. */
  lemma OneReading(cfg: Cfg, steps: seq<Step>, p: Packet<MsgPack.bytes>, j: nat, j': nat, i: int, i': int,
      response: MsgPack.bytes,
      response': MsgPack.bytes)
    requires ValidCfg(cfg) && Answers(cfg, steps, p, j, i, response) && Answers(cfg, steps, p, j', i', response')
    requires j < |steps| && j' < |steps| && steps[j].Call? && steps[j'].Call? && steps[j].sig == steps[j'].sig
    ensures 0 <= i < |cfg.servers| && WireRun(cfg, steps).registered[i]
    ensures 0 <= i' < |cfg.servers|
    ensures AsRead(cfg.servers[i].impl(steps[j].sig.name, steps[j].args)) ==
      AsRead(cfg.servers[i'].impl(steps[j'].sig.name, steps[j'].args))
  {
    hide WireRun, CanCall, ValidCfg, Framing.Unframe, Client.Reply, HdrInt, HdrStr, ClientStubFor, AsRead;
  }
}
