/**
What must have happened before: what registered a server, what killed it, and what a response is
the answer to, each traced back to the step of the run that did it.
*/
module History {
  import opened Broker
  import opened Messages
  import opened Rpc
  import opened Protocol
  import opened Invariants
  import Steps
  import opened System
  import opened Theorems
  import opened Balances
  import opened Ledger

  /** Step j delivers m to server i, which is up and reads it. */
  ghost predicate Reaches(cfg: Cfg, steps: seq<Step>, j: int, i: int, m: Msg)
  {
    0 <= j < |steps| && ReachesNow(cfg, Run(cfg, steps[..j]), steps[j], i, m)
  }

  ghost predicate ReachesNow(cfg: Cfg, w: World, step: Step, i: int, m: Msg)
  {
    && 0 <= i < |cfg.servers| && i !in w.dead
    && step.Deliver? && step.k < |w.net| && w.net[step.k] == Packet(To(cfg.servers[i].ep), m)
  }

  lemma ReachesEarlier(cfg: Cfg, steps: seq<Step>, n: nat, j: int, i: int, m: Msg)
    requires n <= |steps|
    ensures Reaches(cfg, steps[..n], j, i, m) <==> j < n && Reaches(cfg, steps, j, i, m)
  {
    hide ReachesNow, Run;
    if 0 <= j < n {
      assert steps[..n][..j] == steps[..j];
    }
  }

  /** Each server has an endpoint of its own. */
  lemma OwnEndpoint(cfg: Cfg, i: nat)
    requires ValidCfg(cfg) && i < |cfg.servers|
    ensures forall ep :: IsServer(cfg, ep) && ServerAt(cfg.servers, ep) == i <==> ep == cfg.servers[i].ep
  {
    hide GoodServer, GoodIface;
    assert ServerAt(cfg.servers, cfg.servers[i].ep) == i;
  }

  // ---------- Registered by an acknowledgement ----------

  lemma StepRegisters(cfg: Cfg, w: World, step: Step, i: nat)
    requires ValidCfg(cfg) && i < |cfg.servers| == |w.registered|
    ensures Apply(cfg, w, step).registered[i] <==> w.registered[i] || ReachesNow(cfg, w, step, i, Ack)
  {
    hide CanCall, ValidCfg, ServerAt, Route, Destination, Implements, AllReceivable, RemoveAt, FirstMatch, RegOf,
      RegMsg;
    OwnEndpoint(cfg, i);
  }

  /** A server is registered if and only if some step of the run delivered an acknowledgement to it. */
  lemma {:induction false} RegisteredByAck(cfg: Cfg, steps: seq<Step>, i: nat)
    requires ValidCfg(cfg) && i < |cfg.servers|
    ensures Run(cfg, steps).registered[i] <==> exists j :: Reaches(cfg, steps, j, i, Ack)
  {
    hide ValidCfg;
    if steps != [] {
      hide Apply, ReachesNow;
      var n := |steps| - 1;
      RegisteredByAck(cfg, steps[..n], i);
      StepRegisters(cfg, Run(cfg, steps[..n]), steps[n], i);
      if j :| Reaches(cfg, steps, j, i, Ack) {
        ReachesEarlier(cfg, steps, n, j, i, Ack);
      }
      if j :| Reaches(cfg, steps[..n], j, i, Ack) {
        ReachesEarlier(cfg, steps, n, j, i, Ack);
      }
      if ReachesNow(cfg, Run(cfg, steps[..n]), steps[n], i, Ack) {
        assert Reaches(cfg, steps, n, i, Ack);
      }
    }
  }

  // ---------- Killed by a negative argument ----------

  /** Step j delivers q to server i, which is registered and implements it, and q has a negative int argument. */
  ghost predicate Kills(cfg: Cfg, steps: seq<Step>, j: int, i: int, q: Msg)
  {
    Reaches(cfg, steps, j, i, q) && Fatal(cfg, Run(cfg, steps[..j]), i, q)
  }

  ghost predicate Fatal(cfg: Cfg, w: World, i: int, q: Msg)
  {
    && 0 <= i < |cfg.servers| && i < |w.registered| && w.registered[i]
    && q.Request? && Implements(cfg.servers[i].iface, q.op) && !AllReceivable(q.args)
  }

  lemma StepKills(cfg: Cfg, w: World, step: Step, i: nat)
    requires ValidCfg(cfg) && i < |cfg.servers| == |w.registered|
    ensures i in Apply(cfg, w, step).dead <==> i in w.dead || exists q ::
      ReachesNow(cfg, w, step, i, q) && Fatal(cfg, w, i, q)
  {
    hide CanCall, ValidCfg, ServerAt, Route, Destination, Implements, AllReceivable, RemoveAt, FirstMatch, RegOf,
      RegMsg;
    OwnEndpoint(cfg, i);
    if step.Deliver? && step.k < |w.net| && ReachesNow(cfg, w, step, i, w.net[step.k].body) &&
      Fatal(cfg, w, i, w.net[step.k].body) {
      assert i in Apply(cfg, w, step).dead;
    }
  }

  lemma KillsEarlier(cfg: Cfg, steps: seq<Step>, n: nat, j: int, i: int, q: Msg)
    requires n <= |steps|
    ensures Kills(cfg, steps[..n], j, i, q) <==> j < n && Kills(cfg, steps, j, i, q)
  {
    hide Reaches, Fatal, Run;
    ReachesEarlier(cfg, steps, n, j, i, q);
    ReachesInside(cfg, steps, j, i, q);
    if 0 <= j < n {
      assert steps[..n][..j] == steps[..j];
    }
  }

  lemma ReachesInside(cfg: Cfg, steps: seq<Step>, j: int, i: int, m: Msg)
    ensures Reaches(cfg, steps, j, i, m) ==> 0 <= j < |steps|
  {
  }

  ghost predicate Killed(cfg: Cfg, steps: seq<Step>, i: int)
  {
    exists j, q :: Kills(cfg, steps, j, i, q)
  }

  /** A server killed in a run was killed before its last step or by it. */
  lemma KilledByLast(cfg: Cfg, steps: seq<Step>, i: int)
    requires steps != []
    ensures var init := steps[..|steps| - 1];
      Killed(cfg, steps, i) <==>
        Killed(cfg, init, i) || exists q ::
          ReachesNow(cfg, Run(cfg, init), steps[|steps| - 1], i, q) && Fatal(cfg, Run(cfg, init), i, q)
  {
    hide Run, ReachesNow, Fatal;
    var n := |steps| - 1;
    if Killed(cfg, steps, i) {
      var j, q :| Kills(cfg, steps, j, i, q);
      KillsEarlier(cfg, steps, n, j, i, q);
      if j == n {
        assert ReachesNow(cfg, Run(cfg, steps[..n]), steps[n], i, q) && Fatal(cfg, Run(cfg, steps[..n]), i, q);
      } else {
        assert Kills(cfg, steps[..n], j, i, q);
      }
    }
    if Killed(cfg, steps[..n], i) {
      var j, q :| Kills(cfg, steps[..n], j, i, q);
      KillsEarlier(cfg, steps, n, j, i, q);
    }
    if q :| ReachesNow(cfg, Run(cfg, steps[..n]), steps[n], i, q) && Fatal(cfg, Run(cfg, steps[..n]), i, q) {
      assert Kills(cfg, steps, n, i, q);
    }
  }

  lemma {:induction false} DiesInRun(cfg: Cfg, steps: seq<Step>, i: nat)
    requires ValidCfg(cfg) && i < |cfg.servers|
    ensures i in Run(cfg, steps).dead <==> Killed(cfg, steps, i)
  {
    if steps != [] {
      hide Apply, ValidCfg, ReachesNow, Fatal, Killed;
      DiesInRun(cfg, steps[..|steps| - 1], i);
      StepKills(cfg, Run(cfg, steps[..|steps| - 1]), steps[|steps| - 1], i);
      KilledByLast(cfg, steps, i);
    }
  }

  /**
  The servers that crash are exactly those to which, while they were registered, some step of the
  run delivered a request for an operation they implement with a negative int argument.
  */
  lemma DiesExactly(cfg: Cfg, steps: seq<Step>, i: nat)
    requires ValidCfg(cfg) && i < |cfg.servers|
    ensures i in WireRun(cfg, steps).dead <==> exists j, q :: Kills(cfg, steps, j, i, q)
  {
    hide Run, WireRun, ValidCfg, Kills;
    Refinement(cfg, steps);
    DiesInRun(cfg, steps, i);
  }

  /** Without empty names in tables and negative arguments in calls, no node of any run crashes. */
  lemma AllSurvive(cfg: Cfg, steps: seq<Step>)
    requires ValidCfg(cfg) && NoEmptyNames(cfg)
    requires forall j, q | CallOf(cfg, steps, j, q) :: AllReceivable(q.args)
    ensures !WireRun(cfg, steps).crashed && WireRun(cfg, steps).dead == {}
  {
    hide Run, WireRun, ValidCfg, AllReceivable, CallOf;
    NeverCrashes(cfg, steps);
    DeadAreServers(cfg, steps);
    Refinement(cfg, steps);
    forall i | 0 <= i < |cfg.servers|
      ensures i !in WireRun(cfg, steps).dead
    {
      DiesExactly(cfg, steps, i);
      forall j, q
        ensures !Kills(cfg, steps, j, i, q)
      {
        if Kills(cfg, steps, j, i, q) {
          InFlightCalled(cfg, steps[..j], steps[j].k);
          MadeEarlier(cfg, steps, j, q);
          assert false;
        }
      }
    }
  }

  lemma MadeEarlier(cfg: Cfg, steps: seq<Step>, n: nat, q: Msg)
    requires n <= |steps| && q in Run(cfg, steps[..n]).calls
    ensures exists j :: CallOf(cfg, steps, j, q)
  {
    hide Run, CanCall;
    CallsAreSteps(cfg, steps[..n], q);
    var j :| CallOf(cfg, steps[..n], j, q);
    assert CallOf(cfg, steps, j, q);
  }

  lemma InFlightCalled(cfg: Cfg, steps: seq<Step>, k: nat)
    requires ValidCfg(cfg) && k < |Run(cfg, steps).net| && Run(cfg, steps).net[k].body.Request?
    ensures Run(cfg, steps).net[k].body in Run(cfg, steps).calls
  {
    hide Run, Accounts, GoodCall;
    Steps.RunInv(cfg, steps);
    assert Run(cfg, steps).net[k] in Run(cfg, steps).net;
  }

  lemma {:induction false} DeadAreServers(cfg: Cfg, steps: seq<Step>)
    ensures forall i | i in Run(cfg, steps).dead :: i < |cfg.servers|
  {
    hide CanCall, Route, Destination, Implements, AllReceivable, FirstMatch;
    if steps != [] {
      DeadAreServers(cfg, steps[..|steps| - 1]);
    }
  }

  // ---------- Earned by a request ----------

  /** Server i, reading q, answers it with m. */
  ghost predicate AnswersNow(cfg: Cfg, w: World, i: int, q: Msg, m: Msg)
  {
    && 0 <= i < |cfg.servers| == |w.registered| && q.Request? && Steps.Answering(cfg, w, i, q)
    && m == Response(q.id, q.op, cfg.servers[i].impl(q.op, q.args))
  }

  /** Where the packets in flight come from. */
  lemma NetFrom(cfg: Cfg, w: World, step: Step, p: Packet<Msg>)
    requires |w.registered| == |cfg.servers| && p in Apply(cfg, w, step).net
    ensures
      || (exists p' :: p' in w.net && p'.body == p.body)
      || p.body.Registration? || p.body.Ack?
      || (p.body.Request? && step.Call? && CanCall(cfg, step.client, step.sig, step.id, step.args)
          && p == Packet(ToBroker, Request(step.id, step.client, step.sig.name, step.args)))
      || (exists i, q :: ReachesNow(cfg, w, step, i, q) && AnswersNow(cfg, w, i, q, p.body))
  {
    hide CanCall, Route, Destination, ServerAt, Implements, AllReceivable, FirstMatch;
    if step.Deliver? && step.k < |w.net| && p !in w.net && p.body.Response? && w.net[step.k].body.Request? {
      var i := ServerAt(cfg.servers, w.net[step.k].dest.ep);
      assert ReachesNow(cfg, w, step, i, w.net[step.k].body) && AnswersNow(cfg, w, i, w.net[step.k].body, p.body);
    }
    if step.Deliver? && step.k < |w.net| {
      assert w.net[step.k] in w.net;
    }
  }

  lemma DeliveredFrom(cfg: Cfg, w: World, step: Step, p: Packet<Msg>)
    requires |w.registered| == |cfg.servers| && p in Apply(cfg, w, step).delivered
    ensures p in w.net || p in w.delivered
  {
    hide CanCall, Route, Destination, ServerAt, Implements, AllReceivable, FirstMatch;
  }

  /** Step j of the run is server i answering request q with m. */
  ghost predicate AnsweredAt(cfg: Cfg, steps: seq<Step>, j: int, i: int, q: Msg, m: Msg)
  {
    Reaches(cfg, steps, j, i, q) && AnswersNow(cfg, Run(cfg, steps[..j]), i, q, m)
  }

  /** Every response that is in flight or has arrived was made by some step of the run. */
  lemma {:induction false} ResponseMade(cfg: Cfg, steps: seq<Step>, p: Packet<Msg>)
    requires p in Run(cfg, steps).net || p in Run(cfg, steps).delivered
    requires p.body.Response?
    ensures exists j, i, q :: AnsweredAt(cfg, steps, j, i, q, p.body)
  {
    if steps != [] {
      hide Apply, ReachesNow, AnswersNow;
      var n := |steps| - 1;
      var init := steps[..n];
      var w := Run(cfg, init);
      if p in Run(cfg, steps).net {
        NetFrom(cfg, w, steps[n], p);
      } else {
        DeliveredFrom(cfg, w, steps[n], p);
      }
      hide Run;
      if p' :| (p' in w.net || p' in w.delivered) && p'.body == p.body {
        ResponseMade(cfg, init, p');
        var j, i, q :| AnsweredAt(cfg, init, j, i, q, p.body);
        ReachesEarlier(cfg, steps, n, j, i, q);
        assert init[..j] == steps[..j];
        assert AnsweredAt(cfg, steps, j, i, q, p.body);
      } else {
        var i, q :| ReachesNow(cfg, w, steps[n], i, q) && AnswersNow(cfg, w, i, q, p.body);
        assert AnsweredAt(cfg, steps, n, i, q, p.body);
      }
    }
  }

  /**
  No server responds before it has been acknowledged: behind every response, in flight or arrived,
  there is a step in which a server answered a call with it, and an earlier step that delivered an
  acknowledgement to that very server; by then the broker had the server's record, which advertises
  the operation.
  */
  lemma ResponsesAreEarned(cfg: Cfg, steps: seq<Step>, p: Packet<Msg>)
    requires ValidCfg(cfg) && (p in Run(cfg, steps).net || p in Run(cfg, steps).delivered) && p.body.Response?
    ensures exists j, i, q, j' ::
      && AnsweredAt(cfg, steps, j, i, q, p.body) && 0 <= j' < j && Reaches(cfg, steps, j', i, Ack)
      && q in Run(cfg, steps[..j]).calls
      && RegRecord(cfg.servers[i]) in Run(cfg, steps[..j]).broker.svc && Serves(cfg.servers[i], p.body.op)
  {
    hide Run, ValidCfg, RegRecord, Reaches, AnswersNow;
    ResponseMade(cfg, steps, p);
    var j, i, q :| AnsweredAt(cfg, steps, j, i, q, p.body);
    var j' := EarnedAt(cfg, steps, j, i, q, p.body);
  }

  /** Before a server answered, it was acknowledged, known, and asked by a call. */
  lemma EarnedAt(cfg: Cfg, steps: seq<Step>, j: int, i: int, q: Msg, m: Msg) returns (j': int)
    requires ValidCfg(cfg) && AnsweredAt(cfg, steps, j, i, q, m)
    ensures 0 <= j' < j < |steps| && 0 <= i < |cfg.servers| && m.Response? && Reaches(cfg, steps, j', i, Ack)
    ensures q in Run(cfg, steps[..j]).calls
    ensures RegRecord(cfg.servers[i]) in Run(cfg, steps[..j]).broker.svc && Serves(cfg.servers[i], m.op)
  {
    hide Run, ValidCfg, RegRecord, Implements, Rpc.AllReceivable;
    var before := steps[..j];
    RegisteredByAck(cfg, before, i);
    j' :| 0 <= j' && Reaches(cfg, before, j', i, Ack);
    ReachesEarlier(cfg, steps, j, j', i, Ack);
    RegisteredIsKnown(cfg, before, i);
    InFlightCalled(cfg, before, steps[j].k);
    RoutedHere(cfg, before, steps[j].k, i);
  }

  lemma RoutedHere(cfg: Cfg, steps: seq<Step>, k: nat, i: nat)
    requires ValidCfg(cfg) && k < |Run(cfg, steps).net| && Run(cfg, steps).net[k].body.Request?
    requires i < |cfg.servers| && Run(cfg, steps).net[k].dest == To(cfg.servers[i].ep)
    ensures Run(cfg, steps).net[k].body.op in cfg.servers[i].table && [] !in cfg.servers[i].table
  {
    hide Run, Accounts, GoodCall, ValidCfg, RoutesTo;
    Steps.RunInv(cfg, steps);
    var p := Run(cfg, steps).net[k];
    assert p in Run(cfg, steps).net && PacketOk(cfg, Run(cfg, steps), p);
    Steps.Advertised(cfg, Run(cfg, steps), p.body.op, i);
  }

  // ---------- Answered at most once ----------

  ghost predicate MakesNow(cfg: Cfg, step: Step, q: Msg)
  {
    && step.Call? && CanCall(cfg, step.client, step.sig, step.id, step.args)
    && q == Request(step.id, step.client, step.sig.name, step.args)
  }

  /** Some server, reading request q in this step, answers it. */
  ghost predicate IsAnsweredNow(cfg: Cfg, w: World, step: Step, q: Msg)
  {
    exists i, m :: ReachesNow(cfg, w, step, i, q) && AnswersNow(cfg, w, i, q, m)
  }

  ghost function Makes(cfg: Cfg, q: Msg): Kind
  {
    (w: World, step: Step) => MakesNow(cfg, step, q)
  }

  ghost function IsAnswered(cfg: Cfg, q: Msg): Kind
  {
    (w: World, step: Step) => IsAnsweredNow(cfg, w, step, q)
  }

  /** The steps that made request q, in order. */
  ghost function MakingSteps(cfg: Cfg, steps: seq<Step>, q: Msg): (r: seq<nat>)
    ensures Increasing(r, |steps|)
  {
    StepsOf(cfg, steps, Makes(cfg, q))
  }

  /** The steps in which request q was answered, in order. */
  ghost function AnsweringSteps(cfg: Cfg, steps: seq<Step>, q: Msg): (r: seq<nat>)
    ensures Increasing(r, |steps|)
  {
    StepsOf(cfg, steps, IsAnswered(cfg, q))
  }

  /** All of them, and no others. */
  lemma MakingAndAnswering(cfg: Cfg, steps: seq<Step>, q: Msg, j: int)
    ensures j in MakingSteps(cfg, steps, q) <==> 0 <= j < |steps| && MakesNow(cfg, steps[j], q)
    ensures j in AnsweringSteps(cfg, steps, q) <==>
      0 <= j < |steps| && IsAnsweredNow(cfg, Run(cfg, steps[..j]), steps[j], q)
  {
    hide Run, MakesNow, IsAnsweredNow;
    StepsOfComplete(cfg, steps, Makes(cfg, q), j);
    StepsOfComplete(cfg, steps, IsAnswered(cfg, q), j);
  }

  function Holds(q: Msg): Packet<Msg> -> bool
  {
    (p: Packet<Msg>) => p.body == q
  }

  /** A step makes a copy of a request only by calling, and uses one up by answering. */
  lemma CopiesAfter(cfg: Cfg, w: World, step: Step, q: Msg)
    requires |w.registered| == |cfg.servers| && q.Request?
    ensures Tally(Apply(cfg, w, step).net, Holds(q)) + One(IsAnsweredNow(cfg, w, step, q)) <=
      Tally(w.net, Holds(q)) + One(MakesNow(cfg, step, q))
  {
    hide CanCall, ServerAt, Route, Destination, FirstMatch, Tally, Implements, AllReceivable, RemoveAt;
    var w' := Apply(cfg, w, step);
    match step
    case Deliver(k) =>
      if k < |w.net| {
        var rest := RemoveAt(w.net, k);
        TallyTaken(w.net, k, Holds(q));
        if |w'.net| == |rest| + 1 {
          TallySnoc(rest, w'.net[|rest|], Holds(q));
        }
      }
    case _ =>
      if |w'.net| == |w.net| + 1 {
        TallySnoc(w.net, w'.net[|w.net|], Holds(q));
      }
  }

  lemma {:induction false} CopiesBounded(cfg: Cfg, steps: seq<Step>, q: Msg)
    requires q.Request?
    ensures |AnsweringSteps(cfg, steps, q)| + Tally(Run(cfg, steps).net, Holds(q)) <= |MakingSteps(cfg, steps, q)|
  {
    if steps != [] {
      hide Apply, Tally, MakesNow, IsAnsweredNow;
      CopiesBounded(cfg, steps[..|steps| - 1], q);
      CopiesAfter(cfg, Run(cfg, steps[..|steps| - 1]), steps[|steps| - 1], q);
    }
  }

  /**
  No call is answered twice, whatever ids are drawn: the n-th step in which a request is answered
  comes after the n-th step that made this very request.
  */
  lemma {:induction false} AnsweredOnce(cfg: Cfg, steps: seq<Step>, q: Msg, n: nat)
    requires q.Request? && n < |AnsweringSteps(cfg, steps, q)|
    ensures n < |MakingSteps(cfg, steps, q)| && MakingSteps(cfg, steps, q)[n] < AnsweringSteps(cfg, steps, q)[n]
  {
    hide Run, Tally;
    var last := |steps| - 1;
    var init := steps[..last];
    if n < |AnsweringSteps(cfg, init, q)| {
      AnsweredOnce(cfg, init, q, n);
    } else {
      CopiesBounded(cfg, steps, q);
      assert !MakesNow(cfg, steps[last], q);
      assert MakingSteps(cfg, init, q)[n] in MakingSteps(cfg, init, q);
    }
  }
}
