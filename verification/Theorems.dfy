/**
What the protocol guarantees over whole runs, for any configuration and any sequence of steps.
*/
module Theorems {
  import Stubs
  import opened MsgPack
  import opened Common
  import opened Framing
  import opened Generators
  import opened Client
  import opened Broker
  import opened Messages
  import opened Rpc
  import opened Protocol
  import opened Invariants
  import opened Steps
  import opened System

  // ---------- Safety ----------

  /** This step delivers to the broker the registration of server i, whose table has an empty name. */
  ghost predicate StopsNow(cfg: Cfg, w: World, step: Step, i: int)
  {
    && 0 <= i < |cfg.servers| && [] in cfg.servers[i].table && !w.crashed
    && step.Deliver? && step.k < |w.net| && w.net[step.k] == Packet(ToBroker, RegMsg(cfg.servers[i]))
  }

  ghost predicate StopsBroker(cfg: Cfg, steps: seq<Step>, j: int, i: int)
  {
    0 <= j < |steps| && StopsNow(cfg, Run(cfg, steps[..j]), steps[j], i)
  }

  lemma SendingKeepsBroker(cfg: Cfg, w: World, step: Step)
    requires |w.registered| == |cfg.servers| && (!step.Deliver? || step.k >= |w.net|)
    ensures Apply(cfg, w, step).crashed == w.crashed && forall i :: !StopsNow(cfg, w, step, i)
  {
    hide CanCall;
  }

  lemma DeliveryStops(cfg: Cfg, w: World, k: nat)
    requires ValidCfg(cfg) && Inv(cfg, w) && k < |w.net|
    ensures |w.registered| == |cfg.servers|
    ensures Apply(cfg, w, Deliver(k)).crashed <==> w.crashed || exists i :: StopsNow(cfg, w, Deliver(k), i)
  {
    hide Inv, ValidCfg, Apply, GoodCall, RegMsg, RoutesTo, IsAnswer, AskedFrom, RegRecord;
    InFlightOk(cfg, w, k);
    Registered(cfg, w);
    if w.crashed && w.net[k].dest.ToBroker? {
      NothingReachesBroker(cfg, w, k);
      return;
    }
    match (w.net[k].dest, w.net[k].body)
    case (ToBroker, Request(_, _, _, _)) =>
      RequestAtBrokerFacts(cfg, w, k);
      OnlyRegistrations(cfg, w, k);
    case (ToBroker, Response(_, _, _)) =>
      ResponseAtBrokerFacts(cfg, w, k);
      OnlyRegistrations(cfg, w, k);
    case (ToBroker, Registration(_, _)) =>
      var i := RegistrationOf(cfg, w, k);
      RegistrationTaken(cfg, w, k, i);
      assert StopsNow(cfg, w, Deliver(k), i) <==> [] in cfg.servers[i].table;
      SameTable(cfg, w, k, i);
    case (To(_), Request(_, _, _, _)) =>
      RequestAtServerFacts(cfg, w, k);
    case (To(_), Response(_, _, _)) =>
      ResponseAtClientFacts(cfg, w, k);
    case (_, Ack) =>
      AckAtServerFacts(cfg, w, k);
      OnlyRegistrations(cfg, w, k);
  }

  lemma OnlyRegistrations(cfg: Cfg, w: World, k: nat)
    requires k < |w.net| && !w.net[k].body.Registration?
    ensures forall i :: !StopsNow(cfg, w, Deliver(k), i)
  {
  }

  lemma RegistrationOf(cfg: Cfg, w: World, k: nat) returns (i: nat)
    requires Inv(cfg, w) && k < |w.net| && w.net[k].body.Registration?
    ensures i < |cfg.servers| && w.net[k].body == RegMsg(cfg.servers[i])
  {
    hide Accounts, RegMsg;
    i := RegistrationSource(cfg, w, k);
  }

  /** Servers that send the same registration have the same names. */
  lemma SameTable(cfg: Cfg, w: World, k: nat, i: nat)
    requires k < |w.net| && i < |cfg.servers| && w.net[k].body == RegMsg(cfg.servers[i])
    ensures forall i' | StopsNow(cfg, w, Deliver(k), i') :: [] in cfg.servers[i].table
  {
    ReversedTwice(cfg.servers[i].table);
    forall i' | StopsNow(cfg, w, Deliver(k), i')
      ensures [] in cfg.servers[i].table
    {
      ReversedTwice(cfg.servers[i'].table);
    }
  }

  lemma {:induction false} BrokerFailsInRun(cfg: Cfg, steps: seq<Step>)
    requires ValidCfg(cfg)
    ensures Run(cfg, steps).crashed <==> exists j, i :: StopsBroker(cfg, steps, j, i)
  {
    hide ValidCfg, Apply, Inv, StopsNow;
    if steps != [] {
      var n := |steps| - 1;
      var init := steps[..n];
      var w := Run(cfg, init);
      BrokerFailsInRun(cfg, init);
      RunInv(cfg, init);
      if steps[n].Deliver? && steps[n].k < |w.net| {
        DeliveryStops(cfg, w, steps[n].k);
      } else {
        SendingKeepsBroker(cfg, w, steps[n]);
      }
      if j, i :| StopsBroker(cfg, init, j, i) {
        assert init[..j] == steps[..j];
        assert StopsBroker(cfg, steps, j, i);
      }
      if j, i :| StopsBroker(cfg, steps, j, i) {
        if j < n {
          assert init[..j] == steps[..j];
          assert StopsBroker(cfg, init, j, i);
        }
      }
      if i :| StopsNow(cfg, w, steps[n], i) {
        assert StopsBroker(cfg, steps, n, i);
      }
    }
  }

  /**
  The broker exits or runs into undefined behaviour, of that modelled, if and only if some step of
  the run delivers to it the registration of a table with an empty name. In particular every
  response finds a pending entry, and every client gets its call packed.
  */
  lemma BrokerFailsExactly(cfg: Cfg, steps: seq<Step>)
    requires ValidCfg(cfg)
    ensures WireRun(cfg, steps).crashed <==> exists j, i :: StopsBroker(cfg, steps, j, i)
  {
    hide Run, WireRun, ValidCfg, StopsBroker;
    Refinement(cfg, steps);
    BrokerFailsInRun(cfg, steps);
  }

  ghost predicate NoEmptyNames(cfg: Cfg)
  {
    forall s | s in cfg.servers :: [] !in s.table
  }

  /** Without empty names no run makes it fail. */
  lemma NeverCrashes(cfg: Cfg, steps: seq<Step>)
    requires ValidCfg(cfg) && NoEmptyNames(cfg)
    ensures !WireRun(cfg, steps).crashed
  {
    hide Run, WireRun, ValidCfg;
    BrokerFailsExactly(cfg, steps);
  }

  /**
  The books: for every message id and operation, the broker's pending entries are exactly the
  requests forwarded and not yet handled, the responses on their way to the broker, the requests
  that found no server and the requests a server dropped; and the calls made are exactly the
  requests on their way to the broker, the pending entries and the responses sent to clients.
  */
  lemma Books(cfg: Cfg, steps: seq<Step>, key: Key)
    requires ValidCfg(cfg)
    ensures OnlyRequests(Run(cfg, steps).calls)
    ensures var w := Run(cfg, steps);
      && WireRun(cfg, steps) == Wire(w)
      && CountEntries(w.broker.pending, key) ==
           Count(w.net, Tag(RequestOut, key)) + Count(w.net, Tag(ResponseIn, key))
           + multiset(w.unrouted)[key] + multiset(w.dropped)[key]
      && multiset(CallKeys(w.calls))[key] ==
           Count(w.net, Tag(RequestIn, key)) + CountEntries(w.broker.pending, key)
           + Count(w.net, Tag(ResponseOut, key)) + Count(w.delivered, Tag(ResponseOut, key))
  {
    Refinement(cfg, steps);
    RunInv(cfg, steps);
    var w := Run(cfg, steps);
    hide Run, WireRun, Wire, Count, CountEntries, Facts;
    assert OnlyRequests(w.calls) by { FactsCalls(cfg, w); }
    assert ConservedFor(w, key) && BalancedFor(w, key);
  }

  // ---------- Knowledge ----------

  lemma StepGrows(cfg: Cfg, w: World, step: Step)
    requires |w.registered| == |cfg.servers|
    ensures Grows(w, Apply(cfg, w, step))
  {
    hide CanCall, Route, Destination, ServerAt, Implements;
  }

  /** Registrations are never lost, nothing a server learned is unlearned, and no route changes. */
  lemma {:induction false} KnowledgeGrows(cfg: Cfg, steps: seq<Step>, more: seq<Step>)
    ensures Grows(Run(cfg, steps), Run(cfg, steps + more))
    ensures forall op, ep :: RoutesTo(Run(cfg, steps).broker.svc, op, ep) ==>
      RoutesTo(Run(cfg, steps + more).broker.svc, op, ep)
    decreases |more|
  {
    hide Apply, RoutesTo;
    if more == [] {
      assert steps + more == steps;
    } else {
      var init := more[..|more| - 1];
      assert (steps + more)[..|steps + more| - 1] == steps + init;
      KnowledgeGrows(cfg, steps, init);
      StepGrows(cfg, Run(cfg, steps + init), more[|more| - 1]);
      GrowsTransitive(Run(cfg, steps), Run(cfg, steps + init), Run(cfg, steps + more));
    }
    RoutesGrow(Run(cfg, steps), Run(cfg, steps + more));
  }

  lemma GrowsTransitive(a: World, b: World, c: World)
    requires Grows(a, b) && Grows(b, c)
    ensures Grows(a, c)
  {
  }

  lemma RoutesGrow(a: World, b: World)
    requires Grows(a, b)
    ensures forall op, ep :: RoutesTo(a.broker.svc, op, ep) ==> RoutesTo(b.broker.svc, op, ep)
  {
    hide Route;
    PrefixRest(a.broker.svc, b.broker.svc);
    forall op, ep | RoutesTo(a.broker.svc, op, ep)
      ensures RoutesTo(b.broker.svc, op, ep)
    {
      RouteStable(a.broker.svc, b.broker.svc[|a.broker.svc|..], op);
    }
  }

  /**
  A server that takes itself for registered, and one an acknowledgement is on its way to, has its
  record in the broker's repository.
  */
  lemma RegisteredIsKnown(cfg: Cfg, steps: seq<Step>, i: nat)
    requires ValidCfg(cfg) && i < |cfg.servers|
    ensures var w := Run(cfg, steps);
      (w.registered[i] || Packet(To(cfg.servers[i].ep), Ack) in w.net) ==> RegRecord(cfg.servers[i]) in w.broker.svc
  {
    hide Run, ValidCfg, RegRecord, GoodCall, Accounts, ServerAt;
    RunInv(cfg, steps);
    EndpointsDiffer(cfg, i);
    var w := Run(cfg, steps);
    var p := Packet(To(cfg.servers[i].ep), Ack);
    if p in w.net {
      assert PacketOk(cfg, w, p);
    }
  }

  /**
  A forwarded request is on its way to a server that advertised its operation, the one the broker
  still routes to.
  */
  lemma ForwardedToAdvertiser(cfg: Cfg, steps: seq<Step>, p: Packet<Msg>)
    requires ValidCfg(cfg) && p in Run(cfg, steps).net && p.body.Request? && p.dest.To?
    ensures RoutesTo(Run(cfg, steps).broker.svc, p.body.op, p.dest.ep)
    ensures exists i :: 0 <= i < |cfg.servers| && cfg.servers[i].ep == p.dest.ep && p.body.op in cfg.servers[i].table
  {
    hide Run, RoutesTo, ValidCfg, GoodCall, Accounts;
    RunInv(cfg, steps);
    var w := Run(cfg, steps);
    assert PacketOk(cfg, w, p);
    Advertised(cfg, w, p.body.op, ServerAt(cfg.servers, p.dest.ep));
  }

  /**
  Pending entries keep their order of arrival, and for each message id and operation the entry the
  next response takes is the oldest one not yet answered.
  */
  lemma NextTaken(cfg: Cfg, steps: seq<Step>, id: int, op: bytes)
    requires ValidCfg(cfg)
    ensures var w, key := Run(cfg, steps), Key(id, op);
      && Subsequence(w.broker.pending, w.arrivals)
      && ForKey(w.answered, key) <= ForKey(w.arrivals, key)
      && var k := FirstMatch(w.broker.pending, id, op);
         k < |w.broker.pending| ==>
           && |ForKey(w.answered, key)| < |ForKey(w.arrivals, key)|
           && w.broker.pending[k] == ForKey(w.arrivals, key)[|ForKey(w.answered, key)|]
  {
    RunInv(cfg, steps);
    var w, key := Run(cfg, steps), Key(id, op);
    hide Run, Facts, ConservedFor, BalancedFor, Subsequence;
    assert FifoFor(w, key);
    var k := FirstMatch(w.broker.pending, id, op);
    if k < |w.broker.pending| {
      ForKeyTaken(w.broker.pending, id, op, key);
      ForKeyOne(w.broker.pending[k], key);
    }
  }

  // ---------- Calls and steps ----------

  /** Step j makes a call, and q is its request. */
  ghost predicate CallOf(cfg: Cfg, steps: seq<Step>, j: int, q: Msg)
  {
    0 <= j < |steps| && steps[j].Call?
    && CanCall(cfg, steps[j].client, steps[j].sig, steps[j].id, steps[j].args)
    && q == Request(steps[j].id, steps[j].client, steps[j].sig.name, steps[j].args)
  }

  /** The calls of a run are the ones its steps make. */
  lemma {:induction false} CallsAreSteps(cfg: Cfg, steps: seq<Step>, q: Msg)
    requires q in Run(cfg, steps).calls
    ensures exists j :: CallOf(cfg, steps, j, q)
  {
    var n := |steps| - 1;
    var init := steps[..n];
    hide CanCall, Apply;
    ApplyCalls(cfg, Run(cfg, init), steps[n]);
    if q in Run(cfg, init).calls {
      CallsAreSteps(cfg, init, q);
      var j :| CallOf(cfg, init, j, q);
      assert CallOf(cfg, steps, j, q);
    } else {
      assert CallOf(cfg, steps, n, q);
    }
  }

  ghost predicate UniqueKeys(cfg: Cfg, steps: seq<Step>)
  {
    forall i, j, p, q | i < j && CallOf(cfg, steps, i, p) && CallOf(cfg, steps, j, q) :: KeyOf(p) != KeyOf(q)
  }

  /** One step adds its own call, or none. */
  lemma CallsExtend(cfg: Cfg, steps: seq<Step>)
    requires steps != []
    ensures var n := |steps| - 1;
      var before, after := Run(cfg, steps[..n]).calls, Run(cfg, steps).calls;
      after == before || (|after| == |before| + 1 && after == before + [after[|before|]] &&
        CallOf(cfg, steps, n, after[|before|]))
  {
    hide CanCall, Apply;
    var n := |steps| - 1;
    ApplyCalls(cfg, Run(cfg, steps[..n]), steps[n]);
  }

  lemma ApplyCalls(cfg: Cfg, w: World, step: Step)
    requires |w.registered| == |cfg.servers|
    ensures Apply(cfg, w, step).calls == w.calls +
      if step.Call? && CanCall(cfg, step.client, step.sig, step.id, step.args)
      then [Request(step.id, step.client, step.sig.name, step.args)] else []
  {
    hide CanCall, Route, Destination, ServerAt, Implements;
  }

  /** A call made by the last step has a key of its own. */
  lemma FreshKey(cfg: Cfg, steps: seq<Step>, m: Msg, q: Msg)
    requires steps != [] && UniqueKeys(cfg, steps) && CallOf(cfg, steps, |steps| - 1, m)
    requires q in Run(cfg, steps[..|steps| - 1]).calls
    ensures q.Request? && KeyOf(q) != KeyOf(m)
  {
    hide Run, CanCall;
    var init := steps[..|steps| - 1];
    CallsAreSteps(cfg, init, q);
    var j :| CallOf(cfg, init, j, q);
    assert CallOf(cfg, steps, j, q);
  }

  lemma UniqueKeysInit(cfg: Cfg, steps: seq<Step>)
    requires steps != [] && UniqueKeys(cfg, steps)
    ensures UniqueKeys(cfg, steps[..|steps| - 1])
  {
    hide CanCall;
    var init := steps[..|steps| - 1];
    forall i, j, p, q | i < j && CallOf(cfg, init, i, p) && CallOf(cfg, init, j, q)
      ensures KeyOf(p) != KeyOf(q)
    {
      assert CallOf(cfg, steps, i, p) && CallOf(cfg, steps, j, q);
    }
  }

  /** With unique keys, the calls of a run have distinct keys. */
  lemma {:induction false} DistinctCalls(cfg: Cfg, steps: seq<Step>, key: Key)
    requires UniqueKeys(cfg, steps) && OnlyRequests(Run(cfg, steps).calls)
    ensures multiset(CallKeys(Run(cfg, steps).calls))[key] <= 1
  {
    if steps != [] {
      hide Run, UniqueKeys, CallOf;
      var before, after := Run(cfg, steps[..|steps| - 1]).calls, Run(cfg, steps).calls;
      CallsExtend(cfg, steps);
      assert forall q | q in before :: q in after;
      UniqueKeysInit(cfg, steps);
      DistinctCalls(cfg, steps[..|steps| - 1], key);
      if after != before {
        var m := after[|before|];
        forall q | q in before
          ensures q.Request? && KeyOf(q) != KeyOf(m)
        {
          FreshKey(cfg, steps, m, q);
        }
        NewKey(before, m, key);
      }
    }
  }

  lemma NewKey(calls: seq<Msg>, m: Msg, key: Key)
    requires OnlyRequests(calls) && m.Request? && forall q | q in calls :: KeyOf(q) != KeyOf(m)
    requires multiset(CallKeys(calls))[key] <= 1
    ensures OnlyRequests(calls + [m]) && multiset(CallKeys(calls + [m]))[key] <= 1
  {
    assert CallKeys(calls + [m]) == CallKeys(calls) + [KeyOf(m)];
    assert multiset(CallKeys(calls))[KeyOf(m)] == 0;
  }

  // ---------- Remote calls over whole runs ----------

  /**
  The packet p that reached a client is the answer to the call of step j, given by server i: it
  unframes to a response with the call's id and operation, from which the client function reads the
  result of the server's function on the call's arguments.
  */
  ghost predicate Answers(cfg: Cfg, steps: seq<Step>, p: Packet<bytes>, j: int, i: int, response: bytes)
    requires ValidCfg(cfg)
  {
    && 0 <= j < |steps| && steps[j].Call? && 0 <= i < |cfg.servers|
    && var c := steps[j];
    && CanCall(cfg, c.client, c.sig, c.id, c.args)
    && WireRun(cfg, steps).registered[i] && Serves(cfg.servers[i], c.sig.name)
    && Unframe(p.body) == Ok((response, []))
    && HdrInt(response, MESSAGE_ID_HDR) == Ok(c.id) && HdrStr(response, OPERATION_HDR) == Ok(c.sig.name)
    && Reply(ClientStubFor(c.sig).accessor, response) == Ok(AsRead(cfg.servers[i].impl(c.sig.name, c.args)))
  }

  /** Step j is a call with this id and operation, made from the endpoint p went to. */
  ghost predicate SentTo(cfg: Cfg, steps: seq<Step>, p: Packet<bytes>, j: int, id: int, op: bytes)
  {
    exists q :: CallOf(cfg, steps, j, q) && KeyOf(q) == Key(id, op) && p.dest == To(q.from)
  }

  lemma DeliveredAnswer(cfg: Cfg, steps: seq<Step>, k: nat) returns (m: Msg, q: Msg, i: nat)
    requires ValidCfg(cfg) && k < |Run(cfg, steps).delivered|
    ensures m == Run(cfg, steps).delivered[k].body && m.Response? && FitsFrame(m)
    ensures AnswerFrom(cfg, Run(cfg, steps), m, q, i) && GoodCall(cfg, q)
    ensures Run(cfg, steps).delivered[k].dest.To? &&
      AskedFrom(Run(cfg, steps), Run(cfg, steps).delivered[k].dest.ep, KeyOf(m))
  {
    hide Run, Accounts;
    RunInv(cfg, steps);
    var w := Run(cfg, steps);
    var p := w.delivered[k];
    assert p in w.delivered && PacketOk(cfg, w, p);
    PacketFits(cfg, w, p);
    m := p.body;
    q, i :| AnswerFrom(cfg, w, m, q, i);
  }

  /** A result of the type that the operation is declared with. */
  ghost predicate Declared(cfg: Cfg, g: Sig, m: Msg)
  {
    g in cfg.header && m.Response? && g.name == m.op && Stubs.OfType(m.result, g.ret)
  }

  /** Every answer has the type its operation is declared with. */
  lemma AnswerDeclared(cfg: Cfg, w: World, m: Msg, q: Msg, i: nat, g: Sig)
    requires ValidCfg(cfg) && AnswerFrom(cfg, w, m, q, i) && GoodCall(cfg, q) && g in cfg.header && g.name == m.op
    ensures Declared(cfg, g, m)
  {
    hide FitsFrame;
    var s := SameDeclaration(cfg, q, i);
    OneDeclaration(cfg, g, cfg.servers[i].iface[s]);
  }

  /** An operation is declared once. */
  lemma OneDeclaration(cfg: Cfg, g: Sig, g': Sig)
    requires ValidCfg(cfg) && g in cfg.header && g' in cfg.header && g.name == g'.name
    ensures g == g' && Stubs.GoodSig(g)
  {
  }

  /** Reading an answer: framing, headers and accessor together. */
  lemma AnswerRead(cfg: Cfg, g: Sig, m: Msg)
    requires ValidCfg(cfg) && Declared(cfg, g, m) && FitsFrame(m)
    ensures GoodMsg(m) && Unframe(WireBody(m)) == Ok((Bytes(m), []))
    ensures HdrInt(Bytes(m), MESSAGE_ID_HDR) == Ok(m.id) && HdrStr(Bytes(m), OPERATION_HDR) == Ok(m.op)
    ensures Reply(ClientStubFor(g).accessor, Bytes(m)) == Ok(AsRead(m.result))
  {
    OneDeclaration(cfg, g, g);
    MessageId(m);
    hide Bytes, Frame, Unframe, HdrInt, HdrStr, ValidCfg, Reply, FitsFrame;
    Framed(m);
    ResponseLookups(m);
    ReplyRead(g, m.id, m.result);
  }

  lemma MessageId(m: Msg)
    requires m.Response? && FitsFrame(m)
    ensures GoodMsg(m) && 0 <= m.id < 0x8000_0000
  {
  }

  /** On the wire, m answers the call of step j: server i serves it, and its result reads the same. */
  lemma AnswersOnWire(cfg: Cfg, steps: seq<Step>, p: Packet<Msg>, j: nat, c: Msg, i: nat)
    requires ValidCfg(cfg) && CallOf(cfg, steps, j, c) && FitsFrame(p.body) && Declared(cfg, steps[j].sig, p.body)
    requires KeyOf(c) == KeyOf(p.body) && i < |cfg.servers| && Run(cfg, steps).registered[i] &&
      Serves(cfg.servers[i], c.op)
    requires AsRead(p.body.result) == AsRead(cfg.servers[i].impl(c.op, c.args))
    ensures exists response :: Answers(cfg, steps, WirePacket(p), j, i, response)
  {
    hide Run, WireRun, Bytes, Reply, HdrInt, HdrStr, Unframe, ValidCfg, Frame, CanCall, Serves, FitsFrame, Declared,
      WireBody, ClientStubFor;
    AnswerRead(cfg, steps[j].sig, p.body);
    Refinement(cfg, steps);
    assert Answers(cfg, steps, WirePacket(p), j, i, Bytes(p.body));
  }

  lemma CallDeclared(cfg: Cfg, steps: seq<Step>, j: nat, c: Msg)
    requires CallOf(cfg, steps, j, c)
    ensures steps[j].sig in cfg.header && steps[j].sig.name == c.op
  {
  }

  /**
  End to end: every packet that reaches a client in any run answers a call made earlier in the run,
  with the result of the service on that call's own arguments, and reaches an endpoint that made a
  call with that id and operation.
  */
  lemma EndToEnd(cfg: Cfg, steps: seq<Step>, k: nat)
    requires ValidCfg(cfg) && k < |WireRun(cfg, steps).delivered|
    ensures exists j, i, response, j' ::
      && Answers(cfg, steps, WireRun(cfg, steps).delivered[k], j, i, response)
      && SentTo(cfg, steps, WireRun(cfg, steps).delivered[k], j', steps[j].id, steps[j].sig.name)
  {
    Refinement(cfg, steps);
    var m, q, i, j := DeliveredCall(cfg, steps, k);
    hide Run, WireRun, Answers, ValidCfg, CanCall, WireBody, FitsFrame, GoodCall, Serves, Declared;
    var w := Run(cfg, steps);
    var p := w.delivered[k];
    AnswersOnWire(cfg, steps, p, j, q, i);
    var response :| Answers(cfg, steps, WirePacket(p), j, i, response);
    var q' :| Asked(w, q', p.dest.ep, KeyOf(m));
    CallsAreSteps(cfg, steps, q');
    var j' :| CallOf(cfg, steps, j', q');
    assert SentTo(cfg, steps, WirePacket(p), j', steps[j].id, steps[j].sig.name);
  }

  /** The call behind a packet that reached a client, the server that answered it, and the step that made it. */
  lemma DeliveredCall(cfg: Cfg, steps: seq<Step>, k: nat) returns (m: Msg, q: Msg, i: nat, j: nat)
    requires ValidCfg(cfg) && k < |Run(cfg, steps).delivered|
    ensures m == Run(cfg, steps).delivered[k].body && m.Response? && FitsFrame(m)
    ensures AnswerFrom(cfg, Run(cfg, steps), m, q, i) && GoodCall(cfg, q)
    ensures Run(cfg, steps).delivered[k].dest.To? &&
      AskedFrom(Run(cfg, steps), Run(cfg, steps).delivered[k].dest.ep, KeyOf(m))
    ensures CallOf(cfg, steps, j, q) && Declared(cfg, steps[j].sig, m)
  {
    hide Run, ValidCfg, CanCall, FitsFrame, GoodCall, Declared;
    m, q, i := DeliveredAnswer(cfg, steps, k);
    CallsAreSteps(cfg, steps, q);
    j :| CallOf(cfg, steps, j, q);
    CallDeclared(cfg, steps, j, q);
    AnswerDeclared(cfg, Run(cfg, steps), m, q, i, steps[j].sig);
  }

  // ---------- Which calls are told apart ----------

  /**
  Calls with the same id and operation come from the same client, or every server that serves the
  operation gives them results that read the same. The second one is the one that is answered, so
  its arguments must be receivable; the first one may still be waiting.
  */
  ghost predicate ToldApart(cfg: Cfg, calls: iset<Msg>)
  {
    forall q, q', i | q in calls && q' in calls && 0 <= i < |cfg.servers| && Confusable(cfg, q, q', i) ::
      AsRead(cfg.servers[i].impl(q.op, q.args)) == AsRead(cfg.servers[i].impl(q'.op, q'.args))
  }

  /** Server i may answer q', and the broker may take the answer for one to q, of another client. */
  ghost predicate Confusable(cfg: Cfg, q: Msg, q': Msg, i: nat)
    requires i < |cfg.servers|
  {
    && GoodCall(cfg, q) && GoodCall(cfg, q') && KeyOf(q) == KeyOf(q') && q.from != q'.from
    && AllReceivable(q'.args) && Serves(cfg.servers[i], q.op)
  }

  ghost predicate MakesOnly(cfg: Cfg, steps: seq<Step>, calls: iset<Msg>)
  {
    forall j, q | CallOf(cfg, steps, j, q) :: q in calls
  }

  /**
  Correct delivery: when the calls of the run are told apart, every packet that reaches a client
  reaches a caller whose call it answers.
  */
  lemma CorrectDelivery(cfg: Cfg, steps: seq<Step>, calls: iset<Msg>, k: nat)
    requires ValidCfg(cfg) && k < |WireRun(cfg, steps).delivered| && MakesOnly(cfg, steps, calls) &&
      ToldApart(cfg, calls)
    ensures exists j, i, response ::
      && Answers(cfg, steps, WireRun(cfg, steps).delivered[k], j, i, response)
      && WireRun(cfg, steps).delivered[k].dest == To(steps[j].client)
  {
    Refinement(cfg, steps);
    var m, q, i, j := DeliveredCall(cfg, steps, k);
    hide Run, WireRun, Answers, ValidCfg, CanCall, WireBody, FitsFrame, GoodCall, Serves, Declared, AllReceivable,
      AsRead;
    var w := Run(cfg, steps);
    var p := w.delivered[k];
    var q' :| Asked(w, q', p.dest.ep, KeyOf(m));
    CallsAreSteps(cfg, steps, q');
    var j' :| CallOf(cfg, steps, j', q');
    CallsAreGood(cfg, steps);
    var c := if q.from == q'.from then j else j';
    if q.from != q'.from {
      assert Confusable(cfg, q', q, i);
      SameDeclarations(cfg, steps, j, j');
    }
    AnswersOnWire(cfg, steps, p, c, if q.from == q'.from then q else q', i);
    var response :| Answers(cfg, steps, WirePacket(p), c, i, response);
    assert WirePacket(p).dest == To(steps[c].client);
  }

  lemma CallsAreGood(cfg: Cfg, steps: seq<Step>)
    requires ValidCfg(cfg)
    ensures forall q | q in Run(cfg, steps).calls :: GoodCall(cfg, q)
  {
    hide Run, GoodCall, Accounts;
    RunInv(cfg, steps);
  }

  lemma SameDeclarations(cfg: Cfg, steps: seq<Step>, j: nat, j': nat)
    requires ValidCfg(cfg) && j < |steps| && j' < |steps| && steps[j].Call? && steps[j'].Call?
    requires steps[j].sig in cfg.header && steps[j'].sig in cfg.header && steps[j].sig.name == steps[j'].sig.name
    ensures steps[j].sig == steps[j'].sig
  {
    OneDeclaration(cfg, steps[j].sig, steps[j'].sig);
  }

  ghost predicate IsCallOf(cfg: Cfg, steps: seq<Step>, q: Msg)
  {
    exists j :: CallOf(cfg, steps, j, q)
  }

  /** In particular, ids that are unique per operation tell calls apart. */
  lemma UniqueKeysToldApart(cfg: Cfg, steps: seq<Step>)
    requires UniqueKeys(cfg, steps)
    ensures var calls := iset q | IsCallOf(cfg, steps, q);
      MakesOnly(cfg, steps, calls) && ToldApart(cfg, calls)
  {
    hide CanCall, GoodCall, Serves;
    var calls := iset q | IsCallOf(cfg, steps, q);
    forall q, q', i | q in calls && q' in calls && 0 <= i < |cfg.servers|
      ensures !Confusable(cfg, q, q', i)
    {
      var j :| CallOf(cfg, steps, j, q);
      var j' :| CallOf(cfg, steps, j', q');
      assert KeyOf(q) == KeyOf(q') ==> j == j';
    }
  }

  // ---------- At most one answer ----------

  lemma DeliveredTag(cfg: Cfg, steps: seq<Step>, k: nat)
    requires ValidCfg(cfg) && k < |Run(cfg, steps).delivered|
    ensures Run(cfg, steps).delivered[k].body.Response?
    ensures TagOf(Run(cfg, steps).delivered[k]) == Tag(ResponseOut, KeyOf(Run(cfg, steps).delivered[k].body))
  {
    hide Run, ValidCfg, FitsFrame, AnswerFrom, GoodCall, AskedFrom;
    var _, _, _ := DeliveredAnswer(cfg, steps, k);
  }

  /** With unique keys, at most one answer with a given key reaches a client. */
  lemma DeliveredOnce(cfg: Cfg, steps: seq<Step>, key: Key)
    requires ValidCfg(cfg) && UniqueKeys(cfg, steps)
    ensures Count(Run(cfg, steps).delivered, Tag(ResponseOut, key)) <= 1
  {
    hide Run, WireRun, Wire, UniqueKeys, ValidCfg, Count, CountEntries;
    Books(cfg, steps, key);
    DistinctCalls(cfg, steps, key);
  }

  /** And no call is answered twice. */
  lemma AtMostOnce(cfg: Cfg, steps: seq<Step>, k: nat, k': nat)
    requires ValidCfg(cfg) && UniqueKeys(cfg, steps) && k < k' < |Run(cfg, steps).delivered|
    ensures Run(cfg, steps).delivered[k].body.Response? && Run(cfg, steps).delivered[k'].body.Response?
    ensures KeyOf(Run(cfg, steps).delivered[k].body) != KeyOf(Run(cfg, steps).delivered[k'].body)
  {
    hide Run, UniqueKeys, ValidCfg, Count;
    DeliveredTag(cfg, steps, k);
    DeliveredTag(cfg, steps, k');
    var w := Run(cfg, steps);
    DeliveredOnce(cfg, steps, KeyOf(w.delivered[k].body));
    if KeyOf(w.delivered[k].body) == KeyOf(w.delivered[k'].body) {
      CountTwice(w.delivered, k, k');
    }
  }

  lemma AnswersKey(cfg: Cfg, steps: seq<Step>, k: nat, j: int, i: int, response: bytes)
    requires ValidCfg(cfg) && k < |WireRun(cfg, steps).delivered|
    requires Answers(cfg, steps, WireRun(cfg, steps).delivered[k], j, i, response)
    ensures k < |Run(cfg, steps).delivered| && Run(cfg, steps).delivered[k].body.Response?
    ensures KeyOf(Run(cfg, steps).delivered[k].body) == Key(steps[j].id, steps[j].sig.name)
  {
    Refinement(cfg, steps);
    var m, _, _ := DeliveredAnswer(cfg, steps, k);
    assert WireRun(cfg, steps).delivered[k] == WirePacket(Run(cfg, steps).delivered[k]);
    hide Run, WireRun, Bytes, Unframe, Frame, HdrInt, HdrStr, ValidCfg, FitsFrame, AnswerFrom, GoodCall, AskedFrom,
      CanCall, Reply;
    Framed(m);
    ResponseLookups(m);
  }

  /** On the wire: two packets that reach clients never answer the same call. */
  lemma NoCallAnsweredTwice(cfg: Cfg, steps: seq<Step>, k: nat, k': nat, j: int, i: int, i': int, response: bytes,
      response': bytes)
    requires ValidCfg(cfg) && UniqueKeys(cfg, steps) && k < k' < |WireRun(cfg, steps).delivered|
    requires Answers(cfg, steps, WireRun(cfg, steps).delivered[k], j, i, response)
    ensures !Answers(cfg, steps, WireRun(cfg, steps).delivered[k'], j, i', response')
  {
    hide Run, WireRun, Answers, ValidCfg, UniqueKeys;
    AnswersKey(cfg, steps, k, j, i, response);
    if Answers(cfg, steps, WireRun(cfg, steps).delivered[k'], j, i', response') {
      AnswersKey(cfg, steps, k', j, i', response');
      AtMostOnce(cfg, steps, k, k');
    }
  }

  lemma CountTwice(net: seq<Packet<Msg>>, k: nat, k': nat)
    requires k < k' < |net| && TagOf(net[k]) == TagOf(net[k'])
    ensures Count(net, TagOf(net[k])) >= 2
  {
    var rest := RemoveAt(net, k);
    assert rest[k' - 1] == net[k'];
    CountTaken(net, k, TagOf(net[k]));
    CountPositive(rest, k' - 1);
  }
}
