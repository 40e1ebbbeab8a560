/**
Clients that wait: client/send_and_receive.c blocks until a packet arrives, and takes the first one
that does without comparing message ids. What makes its answer the right one is proved here.
*/
module Clients {
  import opened Common
  import Framing
  import Formats
  import Generators
  import Client
  import Broker
  import opened Messages
  import Rpc
  import opened Protocol
  import Invariants
  import Steps
  import opened System
  import opened Theorems
  import History
  import opened Balances
  import opened Ledger

  /** The packets that reached ep, in order. */
  function Arrived<P>(delivered: seq<Packet<P>>, ep: Endpoint): (r: seq<Packet<P>>)
    ensures |r| <= |delivered|
    ensures forall p | p in r :: p in delivered && p.dest == To(ep)
  {
    if delivered == [] then [] else
    var n := |delivered| - 1;
    Arrived(delivered[..n], ep) + if delivered[n].dest == To(ep) then [delivered[n]] else []
  }

  /** All packets that did. */
  lemma {:induction false} ArrivedAll<P>(delivered: seq<Packet<P>>, ep: Endpoint, p: Packet<P>)
    ensures multiset(Arrived(delivered, ep))[p] == if p.dest == To(ep) then multiset(delivered)[p] else 0
  {
    if delivered != [] {
      var n := |delivered| - 1;
      ArrivedAll(delivered[..n], ep, p);
      assert delivered == delivered[..n] + [delivered[n]];
    }
  }

  lemma {:induction false} ArrivedOnWire(delivered: seq<Packet<Msg>>, ep: Endpoint)
    ensures Arrived(WireNet(delivered), ep) == WireNet(Arrived(delivered, ep))
  {
    hide WireBody;
    if delivered == [] {
      assert WireNet(delivered) == [];
      assert WireNet(Arrived(delivered, ep)) == [];
    } else {
      var n := |delivered| - 1;
      ArrivedOnWire(delivered[..n], ep);
      assert WireNet(delivered)[..n] == WireNet(delivered[..n]);
      WireNetStep(Arrived(delivered[..n], ep), 0, delivered[n]);
    }
  }

  /** This step is a call made from ep. */
  ghost predicate CallsFrom(cfg: Cfg, step: Step, ep: Endpoint)
  {
    step.Call? && step.client == ep && CanCall(cfg, ep, step.sig, step.id, step.args)
  }

  /** The steps that are calls from ep, in order. */
  ghost function CallSteps(cfg: Cfg, steps: seq<Step>, ep: Endpoint): (r: seq<nat>)
    ensures Increasing(r, |steps|) && forall j | j in r :: j < |steps| && CallsFrom(cfg, steps[j], ep)
  {
    if steps == [] then [] else
    var n := |steps| - 1;
    IncreasingMore(CallSteps(cfg, steps[..n], ep), n);
    CallSteps(cfg, steps[..n], ep) + if CallsFrom(cfg, steps[n], ep) then [n] else []
  }

  lemma {:induction false} CallStepsComplete(cfg: Cfg, steps: seq<Step>, ep: Endpoint, j: nat)
    requires j < |steps| && CallsFrom(cfg, steps[j], ep)
    ensures j in CallSteps(cfg, steps, ep)
  {
    hide CallsFrom;
    if j < |steps| - 1 {
      CallStepsComplete(cfg, steps[..|steps| - 1], ep, j);
    }
  }

  /** Every client waits: it makes a call only when as many packets have reached it as it made calls before. */
  ghost predicate Waiting(cfg: Cfg, steps: seq<Step>)
    requires ValidCfg(cfg)
  {
    forall j, ep | 0 <= j < |steps| && CallsFrom(cfg, steps[j], ep) ::
      |Arrived(WireRun(cfg, steps[..j]).delivered, ep)| == |CallSteps(cfg, steps[..j], ep)|
  }

  lemma WaitingInit(cfg: Cfg, steps: seq<Step>)
    requires ValidCfg(cfg) && Waiting(cfg, steps) && steps != []
    ensures Waiting(cfg, steps[..|steps| - 1])
  {
    hide WireRun, CallsFrom, ValidCfg;
    var init := steps[..|steps| - 1];
    forall j, ep | 0 <= j < |init| && CallsFrom(cfg, init[j], ep)
      ensures |Arrived(WireRun(cfg, init[..j]).delivered, ep)| == |CallSteps(cfg, init[..j], ep)|
    {
      assert init[..j] == steps[..j] && init[j] == steps[j];
    }
  }

  function StepKey(step: Step): Key
    requires step.Call?
  {
    Key(step.id, step.sig.name)
  }

  /** The packets answer the calls, one for one; at most the last call is still open. */
  ghost predicate OneForOne(steps: seq<Step>, calls: seq<nat>, packets: seq<Packet<Msg>>)
  {
    && |packets| <= |calls| <= |packets| + 1
    && (forall j | j in calls :: j < |steps| && steps[j].Call?)
    && forall n | 0 <= n < |packets| :: AnswersStep(steps, calls[n], packets[n])
  }

  ghost predicate AnswersStep(steps: seq<Step>, j: nat, p: Packet<Msg>)
  {
    j < |steps| && steps[j].Call? && p.body.Response? && KeyOf(p.body) == StepKey(steps[j])
  }

  ghost predicate InTurn(cfg: Cfg, steps: seq<Step>, ep: Endpoint)
  {
    OneForOne(steps, CallSteps(cfg, steps, ep), Arrived(Run(cfg, steps).delivered, ep))
  }

  lemma OneForOneLater(steps: seq<Step>, step: Step, calls: seq<nat>, packets: seq<Packet<Msg>>)
    requires OneForOne(steps, calls, packets)
    ensures OneForOne(steps + [step], calls, packets)
    ensures step.Call? && |packets| == |calls| ==> OneForOne(steps + [step], calls + [|steps|], packets)
  {
    forall n | 0 <= n < |packets|
      ensures AnswersStep(steps + [step], calls[n], packets[n])
    {
      assert AnswersStep(steps, calls[n], packets[n]);
    }
  }

  /** A step delivers one packet or none. */
  lemma ApplyDelivers(cfg: Cfg, w: World, step: Step)
    requires |w.registered| == |cfg.servers|
    ensures var w' := Apply(cfg, w, step);
      w'.delivered == w.delivered ||
        (step.Deliver? && step.k < |w.net| && w'.delivered == w.delivered + [w.net[step.k]])
  {
    hide CanCall, Broker.Route, Broker.Destination, ServerAt, Implements, Rpc.AllReceivable;
  }

  lemma ArrivedSnoc<P>(delivered: seq<Packet<P>>, p: Packet<P>, ep: Endpoint)
    ensures Arrived(delivered + [p], ep) == if p.dest ==
      To(ep) then Arrived(delivered, ep) + [p] else Arrived(delivered, ep)
  {
    assert (delivered + [p])[..|delivered|] == delivered;
  }

  /** Where the t-th packet for ep stands among all the packets delivered. */
  lemma {:induction false} ArrivedFrom<P>(delivered: seq<Packet<P>>, ep: Endpoint, t: nat) returns (k: nat)
    requires t < |Arrived(delivered, ep)|
    ensures k < |delivered| && delivered[k] == Arrived(delivered, ep)[t]
  {
    var n := |delivered| - 1;
    if t < |Arrived(delivered[..n], ep)| {
      k := ArrivedFrom(delivered[..n], ep, t);
    } else {
      k := n;
    }
  }

  // ---------- Counting calls and packets of one key ----------

  function StepHas(steps: seq<Step>, key: Key): nat -> bool
  {
    (j: nat) => j < |steps| && steps[j].Call? && StepKey(steps[j]) == key
  }

  function HasKey(key: Key): Packet<Msg> -> bool
  {
    (p: Packet<Msg>) => p.body.Response? && KeyOf(p.body) == key
  }

  lemma {:induction false} TallyArrived(delivered: seq<Packet<Msg>>, ep: Endpoint, key: Key)
    ensures Tally(Arrived(delivered, ep), HasKey(key)) <= Tally(delivered, Owed(ep, key))
    ensures (forall p | p in delivered :: p.dest.To?) ==>
      Tally(Arrived(delivered, ep), HasKey(key)) == Tally(delivered, Owed(ep, key))
  {
    if delivered != [] {
      hide Tally, Arrived;
      var init, p := delivered[..|delivered| - 1], delivered[|delivered| - 1];
      assert delivered == init + [p] && p in delivered;
      TallyArrived(init, ep, key);
      ArrivedSnoc(init, p, ep);
      TallySnoc(init, p, Owed(ep, key));
      TallySnoc(Arrived(init, ep), p, HasKey(key));
    }
  }

  lemma {:induction false} TallySame<T>(s: seq<T>, p: T -> bool, q: T -> bool)
    requires forall x | x in s :: p(x) == q(x)
    ensures Tally(s, p) == Tally(s, q)
  {
    if s != [] {
      TallySame(s[..|s| - 1], p, q);
    }
  }

  lemma LastCall(cfg: Cfg, steps: seq<Step>)
    requires steps != []
    ensures var step := steps[|steps| - 1];
      Run(cfg, steps).calls == Run(cfg, steps[..|steps| - 1]).calls +
        if step.Call? && CanCall(cfg, step.client, step.sig, step.id, step.args)
        then [Request(step.id, step.client, step.sig.name, step.args)] else []
  {
    hide Apply, CanCall;
    ApplyCalls(cfg, Run(cfg, steps[..|steps| - 1]), steps[|steps| - 1]);
  }

  lemma LastCallStep(cfg: Cfg, steps: seq<Step>, ep: Endpoint)
    requires steps != []
    ensures var n := |steps| - 1;
      CallSteps(cfg, steps, ep) == CallSteps(cfg, steps[..n], ep) + if CallsFrom(cfg, steps[n], ep) then [n] else []
  {
  }

  /** A call from ep with this key. */
  ghost predicate KeyCall(cfg: Cfg, step: Step, ep: Endpoint, key: Key)
  {
    CallsFrom(cfg, step, ep) && StepKey(step) == key
  }

  lemma TallyLastCall(cfg: Cfg, steps: seq<Step>, ep: Endpoint, key: Key)
    requires steps != []
    ensures Tally(Run(cfg, steps).calls, CallFrom(ep, key)) ==
      Tally(Run(cfg, steps[..|steps| - 1]).calls, CallFrom(ep, key)) + One(KeyCall(cfg, steps[|steps| - 1], ep, key))
  {
    hide Run, CanCall, Tally;
    LastCall(cfg, steps);
    var before, after := Run(cfg, steps[..|steps| - 1]).calls, Run(cfg, steps).calls;
    if |after| == |before| + 1 {
      TallySnoc(before, after[|before|], CallFrom(ep, key));
    } else {
      assert after == before;
    }
  }

  lemma TallyLastCallStep(cfg: Cfg, steps: seq<Step>, ep: Endpoint, key: Key)
    requires steps != []
    ensures Tally(CallSteps(cfg, steps, ep), StepHas(steps, key)) ==
      Tally(CallSteps(cfg, steps[..|steps| - 1], ep),
        StepHas(steps[..|steps| - 1], key)) + One(KeyCall(cfg, steps[|steps| - 1], ep, key))
  {
    hide CanCall, Tally, CallSteps;
    var n: nat := |steps| - 1;
    var init, calls := steps[..n], CallSteps(cfg, steps[..n], ep);
    LastCallStep(cfg, steps, ep);
    TallySame(calls, StepHas(init, key), StepHas(steps, key));
    TallySnoc(calls, n, StepHas(steps, key));
    if !CallsFrom(cfg, steps[n], ep) {
      assert CallSteps(cfg, steps, ep) == calls;
    }
  }

  /** The calls from ep, counted by steps and by the history of the run. */
  lemma {:induction false} TallyCalls(cfg: Cfg, steps: seq<Step>, ep: Endpoint, key: Key)
    ensures Tally(CallSteps(cfg, steps, ep), StepHas(steps, key)) == Tally(Run(cfg, steps).calls, CallFrom(ep, key))
  {
    if steps != [] {
      hide Run, Tally, CallSteps, KeyCall;
      TallyCalls(cfg, steps[..|steps| - 1], ep, key);
      TallyLastCall(cfg, steps, ep, key);
      TallyLastCallStep(cfg, steps, ep, key);
    }
  }

  /** Packets that answer calls one for one have the keys of those calls. */
  lemma {:induction false} TallyOneForOne(steps: seq<Step>, calls: seq<nat>, packets: seq<Packet<Msg>>, key: Key)
    requires |calls| == |packets| && forall n | 0 <= n < |packets| :: AnswersStep(steps, calls[n], packets[n])
    ensures Tally(calls, StepHas(steps, key)) == Tally(packets, HasKey(key))
  {
    if packets != [] {
      TallyOneForOne(steps, calls[..|calls| - 1], packets[..|packets| - 1], key);
      assert AnswersStep(steps, calls[|calls| - 1], packets[|packets| - 1]);
    }
  }

  // ---------- Clients are answered in turn ----------

  /** With as many calls of the new packet's key as packets, there must be one more call, and it has that key. */
  lemma OneOpen(steps: seq<Step>, calls: seq<nat>, packets: seq<Packet<Msg>>, p: Packet<Msg>)
    requires OneForOne(steps, calls, packets) && p.body.Response?
    requires Tally(packets + [p], HasKey(KeyOf(p.body))) <= Tally(calls, StepHas(steps, KeyOf(p.body)))
    ensures |calls| == |packets| + 1 && AnswersStep(steps, calls[|packets|], p)
  {
    hide Tally;
    var key, front := KeyOf(p.body), calls[..|packets|];
    TallySnoc(packets, p, HasKey(key));
    assert |calls| == |packets| ==> calls == front;
    TallyOneForOne(steps, front, packets, key);
    hide OneForOne;
    OneForOneLength(steps, calls, packets);
    if |calls| > |packets| {
      TallySnoc(front, calls[|packets|], StepHas(steps, key));
      assert calls == front + [calls[|packets|]];
    }
  }

  lemma OneForOneLength(steps: seq<Step>, calls: seq<nat>, packets: seq<Packet<Msg>>)
    requires OneForOne(steps, calls, packets)
    ensures |packets| <= |calls| <= |packets| + 1
  {
  }

  lemma OneMore(steps: seq<Step>, calls: seq<nat>, packets: seq<Packet<Msg>>, p: Packet<Msg>)
    requires OneForOne(steps, calls, packets) && |calls| == |packets| + 1 && AnswersStep(steps, calls[|packets|], p)
    ensures OneForOne(steps, calls, packets + [p])
  {
  }

  /** What a client has received it has called for, key by key. */
  lemma ArrivedCalled(cfg: Cfg, steps: seq<Step>, ep: Endpoint, key: Key)
    requires ValidCfg(cfg) && !IsServer(cfg, ep)
    ensures Tally(Arrived(Run(cfg, steps).delivered, ep), HasKey(key)) <=
      Tally(CallSteps(cfg, steps, ep), StepHas(steps, key))
  {
    hide Run, CallSteps, Arrived, Tally;
    EachClientSettled(cfg, steps, ep, key);
    TallyCalls(cfg, steps, ep, key);
    TallyArrived(Run(cfg, steps).delivered, ep, key);
  }

  lemma DeliveredToClient(cfg: Cfg, steps: seq<Step>, k: nat)
    requires ValidCfg(cfg) && k < |Run(cfg, steps).delivered|
    ensures var p := Run(cfg, steps).delivered[k]; p.body.Response? && p.dest.To? && !IsServer(cfg, p.dest.ep)
  {
    hide Run, Invariants.Accounts;
    Steps.RunInv(cfg, steps);
    var p := Run(cfg, steps).delivered[k];
    assert p in Run(cfg, steps).delivered && Invariants.PacketOk(cfg, Run(cfg, steps), p);
  }

  /** A client that waits has no call open when it makes one. */
  lemma NoneOpen(cfg: Cfg, steps: seq<Step>, ep: Endpoint)
    requires ValidCfg(cfg) && Waiting(cfg, steps) && steps != [] && CallsFrom(cfg, steps[|steps| - 1], ep)
    ensures var init := steps[..|steps| - 1]; |Arrived(Run(cfg, init).delivered, ep)| == |CallSteps(cfg, init, ep)|
  {
    hide Run, WireRun, CallsFrom, ValidCfg, CallSteps;
    var init := steps[..|steps| - 1];
    Refinement(cfg, init);
    ArrivedOnWire(Run(cfg, init).delivered, ep);
  }

  /** What the last step adds to the packets that reached ep. */
  lemma LastArrival(cfg: Cfg, steps: seq<Step>, ep: Endpoint)
    requires ValidCfg(cfg) && steps != []
    ensures var before, after := Run(cfg, steps[..|steps| - 1]).delivered, Run(cfg, steps).delivered;
      Arrived(after, ep) == Arrived(before, ep) ||
      (steps[|steps| - 1].Deliver? && after != [] && after[..|after| - 1] == before && after[|after| - 1].dest == To(ep)
       && after[|after| - 1] in Run(cfg, steps[..|steps| - 1]).net
       && Arrived(after, ep) == Arrived(before, ep) + [after[|after| - 1]])
  {
    hide Apply;
    var w := Run(cfg, steps[..|steps| - 1]);
    ApplyDelivers(cfg, w, steps[|steps| - 1]);
    var after := Run(cfg, steps).delivered;
    if after != w.delivered {
      ArrivedSnoc(w.delivered, after[|w.delivered|], ep);
    }
  }

  /** A step that is not a call from ep keeps the turn. */
  lemma TurnKept(cfg: Cfg, steps: seq<Step>, ep: Endpoint, calls: seq<nat>)
    requires ValidCfg(cfg) && steps != [] && calls == CallSteps(cfg, steps, ep)
    requires OneForOne(steps, calls, Arrived(Run(cfg, steps[..|steps| - 1]).delivered, ep))
    ensures OneForOne(steps, calls, Arrived(Run(cfg, steps).delivered, ep))
  {
    hide Run, ValidCfg, CanCall, OneForOne, CallSteps, Arrived, Tally, AnswersStep;
    LastArrival(cfg, steps, ep);
    var packets, after := Arrived(Run(cfg, steps[..|steps| - 1]).delivered, ep), Run(cfg, steps).delivered;
    if Arrived(after, ep) != packets {
      var p := after[|after| - 1];
      DeliveredToClient(cfg, steps, |after| - 1);
      ArrivedCalled(cfg, steps, ep, KeyOf(p.body));
      OneOpen(steps, calls, packets, p);
      OneMore(steps, calls, packets, p);
    }
  }

  /** A call delivers nothing. */
  lemma CallArrival(cfg: Cfg, steps: seq<Step>, ep: Endpoint)
    requires ValidCfg(cfg) && steps != [] && steps[|steps| - 1].Call?
    ensures Arrived(Run(cfg, steps).delivered, ep) == Arrived(Run(cfg, steps[..|steps| - 1]).delivered, ep)
  {
    hide Run, ValidCfg, Arrived;
    LastArrival(cfg, steps, ep);
  }

  /** Clients that wait are answered in turn, whatever ids they draw. */
  lemma {:induction false} TurnsKept(cfg: Cfg, steps: seq<Step>, ep: Endpoint)
    requires ValidCfg(cfg) && Waiting(cfg, steps)
    ensures InTurn(cfg, steps, ep)
  {
    if steps == [] {
      NothingOpen();
    } else {
      hide Run, ValidCfg, CanCall, OneForOne, Waiting, CallSteps, Arrived;
      var n := |steps| - 1;
      var init := steps[..n];
      WaitingInit(cfg, steps);
      TurnsKept(cfg, init, ep);
      LastCallStep(cfg, steps, ep);
      assert init + [steps[n]] == steps;
      var calls := CallSteps(cfg, init, ep);
      OneForOneLater(init, steps[n], calls, Arrived(Run(cfg, init).delivered, ep));
      if CallsFrom(cfg, steps[n], ep) {
        NoneOpen(cfg, steps, ep);
        CallArrival(cfg, steps, ep);
      } else {
        assert CallSteps(cfg, steps, ep) == calls;
        TurnKept(cfg, steps, ep, calls);
      }
    }
  }

  lemma NothingOpen()
    ensures OneForOne([], [], [])
  {
  }

  // ---------- What a client function returns ----------

  /** The n-th packet that reaches ep, read by the client function of its n-th call. */
  ghost function Returned(cfg: Cfg, steps: seq<Step>, ep: Endpoint, n: nat): Outcome<Formats.Arg>
    requires ValidCfg(cfg) && n < |Arrived(WireRun(cfg, steps).delivered, ep)| && n < |CallSteps(cfg, steps, ep)|
  {
    var j := CallSteps(cfg, steps, ep)[n];
    assert j in CallSteps(cfg, steps, ep);
    match Framing.Unframe(Arrived(WireRun(cfg, steps).delivered, ep)[n].body)
    case Abort => Abort
    case Ok((response, _)) => Client.Reply(Generators.ClientStubFor(steps[j].sig).accessor, response)
  }

  /**
  No client function fails: when clients wait, every packet that reaches one finds a call open, the
  n-th packet carries the id and the operation of the n-th call, and the function that made this
  call reads from it a result that some server computed for a call with this id and operation.
  No assumption is made about ids.
  */
  lemma EveryReadSucceeds(cfg: Cfg, steps: seq<Step>, ep: Endpoint, n: nat)
    requires ValidCfg(cfg) && Waiting(cfg, steps) && n < |Arrived(WireRun(cfg, steps).delivered, ep)|
    ensures n < |CallSteps(cfg, steps, ep)| <= |Arrived(WireRun(cfg, steps).delivered, ep)| + 1
    ensures exists j, i, response ::
      && Answers(cfg, steps, Arrived(WireRun(cfg, steps).delivered, ep)[n], j, i, response)
      && CallSteps(cfg, steps, ep)[n] in CallSteps(cfg, steps, ep)
      && StepKey(steps[j]) == StepKey(steps[CallSteps(cfg, steps, ep)[n]])
      && Returned(cfg, steps, ep, n) == Ok(Rpc.AsRead(cfg.servers[i].impl(steps[j].sig.name, steps[j].args)))
  {
    hide Run, WireRun, ValidCfg, Waiting, CanCall, CallSteps, Arrived, WireBody, Client.Reply,
      Framing.Unframe, HdrInt, HdrStr,
      Serves, FitsFrame, Invariants.GoodCall, Generators.ClientStubFor;
    var t := ArrivedAnswer(cfg, steps, ep, n);
    var m, q, i, j := DeliveredCall(cfg, steps, t);
    AnswersOnWire(cfg, steps, Run(cfg, steps).delivered[t], j, q, i);
    var p := WirePacket(Run(cfg, steps).delivered[t]);
    var response :| Answers(cfg, steps, p, j, i, response);
    SameDeclarations(cfg, steps, j, CallSteps(cfg, steps, ep)[n]);
  }

  /** The n-th packet for ep, among all packets, and its agreement with the n-th call. */
  lemma ArrivedAnswer(cfg: Cfg, steps: seq<Step>, ep: Endpoint, n: nat) returns (k: nat)
    requires ValidCfg(cfg) && Waiting(cfg, steps) && n < |Arrived(WireRun(cfg, steps).delivered, ep)|
    ensures k < |Run(cfg, steps).delivered| && n < |Arrived(Run(cfg, steps).delivered, ep)|
    ensures Run(cfg, steps).delivered[k] == Arrived(Run(cfg, steps).delivered, ep)[n]
    ensures Arrived(WireRun(cfg, steps).delivered, ep)[n] == WirePacket(Run(cfg, steps).delivered[k])
    ensures n < |CallSteps(cfg, steps, ep)| <= |Arrived(WireRun(cfg, steps).delivered, ep)| + 1
    ensures CallSteps(cfg, steps, ep)[n] in CallSteps(cfg, steps, ep)
    ensures AnswersStep(steps, CallSteps(cfg, steps, ep)[n], Run(cfg, steps).delivered[k])
    ensures steps[CallSteps(cfg, steps, ep)[n]].sig in cfg.header
  {
    hide Run, WireRun, ValidCfg, Waiting, FitsFrame, CallSteps, Arrived, WireBody;
    TurnsKept(cfg, steps, ep);
    Refinement(cfg, steps);
    ArrivedOnWire(Run(cfg, steps).delivered, ep);
    k := ArrivedFrom(Run(cfg, steps).delivered, ep, n);
    assert CallSteps(cfg, steps, ep)[n] in CallSteps(cfg, steps, ep);
    assert CallsFrom(cfg, steps[CallSteps(cfg, steps, ep)[n]], ep);
  }

  /** The n-th packet that reaches ep finds a client function waiting, which returns. */
  ghost predicate ReadSucceeds(cfg: Cfg, steps: seq<Step>, ep: Endpoint, n: nat)
    requires ValidCfg(cfg) && n < |Arrived(WireRun(cfg, steps).delivered, ep)|
  {
    n < |CallSteps(cfg, steps, ep)| && Returned(cfg, steps, ep, n).Ok?
  }

  /**
  No node of any run fails when clients wait,
    tables have no empty name and no argument is negative: the broker and the servers
  survive, every call is packed, and every client function returns.
  */
  lemma NobodyFails(cfg: Cfg, steps: seq<Step>)
    requires ValidCfg(cfg) && NoEmptyNames(cfg) && Waiting(cfg, steps)
    requires forall j, q | CallOf(cfg, steps, j, q) :: Rpc.AllReceivable(q.args)
    ensures !WireRun(cfg, steps).crashed && WireRun(cfg, steps).dead == {}
    ensures forall ep, n | 0 <= n < |Arrived(WireRun(cfg, steps).delivered, ep)| :: ReadSucceeds(cfg, steps, ep, n)
  {
    hide WireRun, ValidCfg, Waiting, CallOf, CallSteps, Arrived, Returned, Answers, Rpc.AllReceivable;
    History.AllSurvive(cfg, steps);
    forall ep, n | 0 <= n < |Arrived(WireRun(cfg, steps).delivered, ep)|
      ensures ReadSucceeds(cfg, steps, ep, n)
    {
      EveryReadSucceeds(cfg, steps, ep, n);
    }
  }
}
