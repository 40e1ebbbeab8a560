/**
When remote calls return the right results, exactly. Responses carry an id and an operation and
nothing else that says whose they are; the calls that this is enough for are those that are told
apart (Theorems.ToldApart), and for any others there is a run that goes wrong.
*/
module Exactness {
  import Steps
  import Generators
  import MsgPack
  import opened Common
  import opened Messages
  import opened Rpc
  import opened Protocol
  import opened Invariants
  import opened System
  import opened Theorems
  import opened Balances
  import opened History
  import opened Clients
  import opened Exchanges

  // ---------- A client that has a key to itself ----------

  /** The last call from ep with this key. */
  function LastFrom(calls: seq<Msg>, ep: Endpoint, key: Key): (r: Option<Msg>)
    ensures r.Some? ==> r.value in calls && CallFrom(ep, key)(r.value)
  {
    if calls == [] then None
    else if CallFrom(ep, key)(calls[|calls| - 1]) then Some(calls[|calls| - 1])
    else LastFrom(calls[..|calls| - 1], ep, key)
  }

  /** Only ep makes calls with this key that a server can answer. */
  ghost predicate Sole(calls: seq<Msg>, ep: Endpoint, key: Key)
  {
    forall q | q in calls && Answerable(key)(q) :: q.from == ep
  }

  /** m is the call q, or an answer to it. */
  ghost predicate Stems(cfg: Cfg, w: World, m: Msg, q: Msg)
  {
    m == q || exists i :: AnswerFrom(cfg, w, m, q, i)
  }

  /** All that is live for this key stems from ep's last call. */
  ghost predicate OwnContent(cfg: Cfg, w: World, ep: Endpoint, key: Key)
  {
    forall p | p in w.net && Live(key)(p) :: StemsFromLast(cfg, w, p.body, ep, key)
  }

  ghost predicate StemsFromLast(cfg: Cfg, w: World, m: Msg, ep: Endpoint, key: Key)
  {
    var last := LastFrom(w.calls, ep, key);
    last.Some? && Stems(cfg, w, m, last.value)
  }

  /** When a client that waits makes a call with a key of its own, nothing is live for the key. */
  lemma NothingLive(cfg: Cfg, steps: seq<Step>, ep: Endpoint, key: Key)
    requires ValidCfg(cfg) && Waiting(cfg, steps) && Sole(Run(cfg, steps).calls, ep, key)
    requires |Arrived(Run(cfg, steps).delivered, ep)| == |CallSteps(cfg, steps, ep)|
    ensures forall p | p in Run(cfg, steps).net :: !Live(key)(p)
  {
    hide Run, ValidCfg, Waiting, CallSteps, Arrived, Tally;
    var w, packets := Run(cfg, steps), Arrived(Run(cfg, steps).delivered, ep);
    TurnsKept(cfg, steps, ep);
    TallyOneForOne(steps, CallSteps(cfg, steps, ep), packets, key);
    TallyCalls(cfg, steps, ep, key);
    TallyAtMost(w.calls, Answerable(key), CallFrom(ep, key));
    AnswersBounded(cfg, steps, key);
    ArrivedLive(cfg, steps, ep, key);
    TallyNone(w.net, Live(key));
  }

  lemma ArrivedLive(cfg: Cfg, steps: seq<Step>, ep: Endpoint, key: Key)
    requires ValidCfg(cfg)
    ensures Tally(Arrived(Run(cfg, steps).delivered, ep), HasKey(key)) <= Tally(Run(cfg, steps).delivered, Live(key))
  {
    hide Run, ValidCfg, Arrived, Tally, Answerable;
    var delivered := Run(cfg, steps).delivered;
    forall p | p in delivered
      ensures p.body.Response? && p.dest.To?
    {
      var k :| 0 <= k < |delivered| && delivered[k] == p;
      DeliveredToClient(cfg, steps, k);
    }
    TallyArrived(delivered, ep, key);
    TallyAtMost(delivered, Owed(ep, key), Live(key));
  }

  /** What stems from a call goes on to. */
  lemma StemsGrows(cfg: Cfg, w: World, w': World, m: Msg, q: Msg)
    requires Grows(w, w') && Stems(cfg, w, m, q)
    ensures Stems(cfg, w', m, q)
  {
    if i :| AnswerFrom(cfg, w, m, q, i) {
      assert AnswerFrom(cfg, w', m, q, i);
    }
  }

  /** A server that answers the last call sends what stems from it. */
  lemma AnswerStems(cfg: Cfg, w: World, w': World, step: Step, i: int, q: Msg, m: Msg)
    requires ValidCfg(cfg) && Inv(cfg, w) && Grows(w, w') && ReachesNow(cfg, w, step, i, q) &&
      AnswersNow(cfg, w, i, q, m)
    ensures Stems(cfg, w', m, q)
  {
    hide Accounts, ValidCfg, GoodCall, RoutesTo;
    var p := w.net[step.k];
    assert p in w.net && PacketOk(cfg, w, p);
    Steps.Advertised(cfg, w, q.op, i);
    assert AnswerFrom(cfg, w', m, q, i);
  }

  lemma LastFromMore(calls: seq<Msg>, q: Msg, ep: Endpoint, key: Key)
    ensures LastFrom(calls + [q], ep, key) == if CallFrom(ep, key)(q) then Some(q) else LastFrom(calls, ep, key)
  {
    assert (calls + [q])[..|calls|] == calls;
  }

  lemma SoleBefore(cfg: Cfg, steps: seq<Step>, ep: Endpoint, key: Key)
    requires steps != [] && Sole(Run(cfg, steps).calls, ep, key)
    ensures Sole(Run(cfg, steps[..|steps| - 1]).calls, ep, key)
  {
    hide Run, CanCall;
    LastCall(cfg, steps);
  }

  /** After a call, by ep or by anyone else. */
  lemma OwnContentCall(cfg: Cfg, steps: seq<Step>, ep: Endpoint, key: Key)
    requires ValidCfg(cfg) && Waiting(cfg, steps) && steps != [] && Sole(Run(cfg, steps).calls, ep, key)
    requires var step := steps[|steps| - 1]; step.Call? && CallsFrom(cfg, step, step.client)
    requires OwnContent(cfg, Run(cfg, steps[..|steps| - 1]), ep, key)
    ensures OwnContent(cfg, Run(cfg, steps), ep, key)
  {
    hide Run, ValidCfg, CanCall, Waiting, CallSteps, Arrived, Live, Stems;
    var n := |steps| - 1;
    var w, w', step := Run(cfg, steps[..n]), Run(cfg, steps), steps[n];
    var q := Request(step.id, step.client, step.sig.name, step.args);
    RunGrows(cfg, steps);
    CallSent(cfg, steps);
    LastFromMore(w.calls, q, ep, key);
    if CallFrom(ep, key)(q) {
      NoneOpen(cfg, steps, ep);
      WaitingInit(cfg, steps);
      SoleBefore(cfg, steps, ep, key);
      NothingLive(cfg, steps[..n], ep, key);
      StemsSelf(cfg, w', q);
    } else {
      OtherCallNotLive(w'.calls, q, ep, key);
      forall p | p in w.net && Live(key)(p)
        ensures StemsFromLast(cfg, w', p.body, ep, key)
      {
        StemsGrows(cfg, w, w', p.body, LastFrom(w.calls, ep, key).value);
      }
    }
  }

  lemma StemsSelf(cfg: Cfg, w: World, q: Msg)
    ensures Stems(cfg, w, q, q)
  {
  }

  lemma OtherCallNotLive(calls: seq<Msg>, q: Msg, ep: Endpoint, key: Key)
    requires Sole(calls, ep, key) && q in calls && q.Request? && !CallFrom(ep, key)(q)
    ensures !Live(key)(Packet(ToBroker, q))
  {
  }

  lemma CallSent(cfg: Cfg, steps: seq<Step>)
    requires steps != []
    requires var step := steps[|steps| - 1]; step.Call? && CallsFrom(cfg, step, step.client)
    ensures var w, w', step := Run(cfg, steps[..|steps| - 1]), Run(cfg, steps), steps[|steps| - 1];
      var q := Request(step.id, step.client, step.sig.name, step.args);
      w'.net == w.net + [Packet(ToBroker, q)] && w'.calls == w.calls + [q]
  {
    hide CanCall;
  }

  lemma RunGrows(cfg: Cfg, steps: seq<Step>)
    requires steps != []
    ensures Grows(Run(cfg, steps[..|steps| - 1]), Run(cfg, steps))
  {
    hide Apply, Grows;
    StepGrows(cfg, Run(cfg, steps[..|steps| - 1]), steps[|steps| - 1]);
  }

  lemma OwnPacketLeft(cfg: Cfg, w: World, w': World, m: Msg, ep: Endpoint, key: Key)
    requires Grows(w, w') && w'.calls == w.calls && StemsFromLast(cfg, w, m, ep, key)
    ensures StemsFromLast(cfg, w', m, ep, key)
  {
    hide Grows, Stems, LastFrom;
    StemsGrows(cfg, w, w', m, LastFrom(w.calls, ep, key).value);
  }

  lemma OwnPacketAnswered(cfg: Cfg, w: World, w': World, step: Step, i: int, q: Msg, m: Msg, ep: Endpoint, key: Key)
    requires ValidCfg(cfg) && Inv(cfg, w) && Grows(w, w') && w'.calls == w.calls && OwnContent(cfg, w, ep, key)
    requires ReachesNow(cfg, w, step, i, q) && AnswersNow(cfg, w, i, q, m) && KeyOf(m) == key
    ensures StemsFromLast(cfg, w', m, ep, key)
  {
    AnswerLive(cfg, w, step, i, q, m, key);
    hide ValidCfg, Inv, Grows, ReachesNow, AnswersNow, Stems, LastFrom, Live;
    var p :| p in w.net && Live(key)(p) && p.body == q;
    StemsOnlySelf(cfg, w, q, LastFrom(w.calls, ep, key).value);
    AnswerStems(cfg, w, w', step, i, q, m);
  }

  /** What is answered was live. */
  lemma AnswerLive(cfg: Cfg, w: World, step: Step, i: int, q: Msg, m: Msg, key: Key)
    requires ReachesNow(cfg, w, step, i, q) && AnswersNow(cfg, w, i, q, m) && KeyOf(m) == key
    ensures q.Request? && exists p :: p in w.net && Live(key)(p) && p.body == q
  {
    var p := w.net[step.k];
    assert Answerable(key)(p.body);
    assert p in w.net && Live(key)(p);
  }

  /** A live packet is no registration and no acknowledgement. */
  lemma LiveKind(p: Packet<Msg>, key: Key)
    requires Live(key)(p)
    ensures (p.body.Request? || p.body.Response?) && KeyOf(p.body) == key
    ensures forall p': Packet<Msg> | p'.body == p.body :: Live(key)(p')
  {
    assert Answerable(key)(p.body) ==> p.body.Request? && KeyOf(p.body) == key;
  }

  /** After any other step. */
  lemma OwnContentOther(cfg: Cfg, w: World, step: Step, ep: Endpoint, key: Key)
    requires ValidCfg(cfg) && Inv(cfg, w) && |w.registered| == |cfg.servers| && OwnContent(cfg, w, ep, key)
    requires Apply(cfg, w, step).calls == w.calls
    requires !(step.Call? && CallsFrom(cfg, step, step.client))
    ensures OwnContent(cfg, Apply(cfg, w, step), ep, key)
  {
    var w' := Apply(cfg, w, step);
    hide Apply, Inv, ValidCfg, CanCall, StemsFromLast, ReachesNow, AnswersNow, Grows, Live;
    StepGrows(cfg, w, step);
    forall p | p in w'.net && Live(key)(p)
      ensures StemsFromLast(cfg, w', p.body, ep, key)
    {
      NetFrom(cfg, w, step, p);
      LiveKind(p, key);
      if p' :| p' in w.net && p'.body == p.body {
        OwnPacketLeft(cfg, w, w', p.body, ep, key);
      } else if i, q :| ReachesNow(cfg, w, step, i, q) && AnswersNow(cfg, w, i, q, p.body) {
        OwnPacketAnswered(cfg, w, w', step, i, q, p.body, ep, key);
      }
    }
  }

  lemma StemsOnlySelf(cfg: Cfg, w: World, m: Msg, q: Msg)
    requires Stems(cfg, w, m, q) && m.Request?
    ensures m == q
  {
  }

  /** When only ep makes calls with a key, what is live for the key is about its last one. */
  lemma {:induction false} OwnContentKept(cfg: Cfg, steps: seq<Step>, ep: Endpoint, key: Key)
    requires ValidCfg(cfg) && Waiting(cfg, steps) && Sole(Run(cfg, steps).calls, ep, key)
    ensures OwnContent(cfg, Run(cfg, steps), ep, key)
  {
    if steps != [] {
      hide Run, Apply, ValidCfg, Waiting, CanCall, Inv, OwnContent, Sole;
      var n := |steps| - 1;
      WaitingInit(cfg, steps);
      SoleBefore(cfg, steps, ep, key);
      OwnContentKept(cfg, steps[..n], ep, key);
      if steps[n].Call? && CallsFrom(cfg, steps[n], steps[n].client) {
        OwnContentCall(cfg, steps, ep, key);
      } else {
        Steps.RunInv(cfg, steps[..n]);
        RunUnfold(cfg, steps);
        LastCall(cfg, steps);
        OwnContentOther(cfg, Run(cfg, steps[..n]), steps[n], ep, key);
      }
    }
  }

  lemma RunUnfold(cfg: Cfg, steps: seq<Step>)
    requires steps != []
    ensures Run(cfg, steps) == Apply(cfg, Run(cfg, steps[..|steps| - 1]), steps[|steps| - 1])
  {
  }

  // ---------- Clients that wait get their own answers ----------

  function RequestOf(step: Step): Msg
    requires step.Call?
  {
    Request(step.id, step.client, step.sig.name, step.args)
  }

  /** m reads like the answer of server i to call c. */
  ghost predicate RightBy(cfg: Cfg, w: World, c: Msg, m: Msg, i: int)
  {
    && c.Request? && m.Response? && KeyOf(c) == KeyOf(m)
    && 0 <= i < |cfg.servers| && i < |w.registered| && w.registered[i] && Serves(cfg.servers[i], c.op)
    && AsRead(m.result) == AsRead(cfg.servers[i].impl(c.op, c.args))
  }

  ghost predicate Right(cfg: Cfg, w: World, c: Msg, m: Msg)
  {
    exists i :: RightBy(cfg, w, c, m, i)
  }

  lemma RightGrows(cfg: Cfg, w: World, w': World, c: Msg, m: Msg)
    requires Grows(w, w') && Right(cfg, w, c, m)
    ensures Right(cfg, w', c, m)
  {
    var i :| RightBy(cfg, w, c, m, i);
    assert RightBy(cfg, w', c, m, i);
  }

  /** Step j is a call from ep, and no later call from ep has its key. */
  ghost predicate Latest(cfg: Cfg, steps: seq<Step>, ep: Endpoint, j: nat)
  {
    && j < |steps| && CallsFrom(cfg, steps[j], ep)
    && LastFrom(Run(cfg, steps).calls, ep, StepKey(steps[j])) == Some(RequestOf(steps[j]))
  }

  lemma {:induction false} LastOpen(cfg: Cfg, steps: seq<Step>, ep: Endpoint)
    requires CallSteps(cfg, steps, ep) != []
    ensures Latest(cfg, steps, ep, CallSteps(cfg, steps, ep)[|CallSteps(cfg, steps, ep)| - 1])
  {
    hide Run, LastFrom, CanCall;
    var n := |steps| - 1;
    LastCall(cfg, steps);
    LastCallStep(cfg, steps, ep);
    var before, step := Run(cfg, steps[..n]).calls, steps[n];
    if CallsFrom(cfg, step, ep) {
      LastFromMore(before, RequestOf(step), ep, StepKey(step));
    } else {
      LastOpen(cfg, steps[..n], ep);
      var calls := CallSteps(cfg, steps[..n], ep);
      if Run(cfg, steps).calls != before {
        LastFromMore(before, RequestOf(step), ep, StepKey(steps[calls[|calls| - 1]]));
      }
    }
  }

  /** An answer that may be confused is told apart by what it reads. */
  lemma ReadsLike(cfg: Cfg, calls: iset<Msg>, c: Msg, b: Msg, i: nat)
    requires ToldApart(cfg, calls) && c in calls && b in calls && c.Request? && i < |cfg.servers| &&
      Serves(cfg.servers[i], c.op)
    requires GoodCall(cfg, c) && GoodCall(cfg, b) && KeyOf(c) == KeyOf(b) && c.from != b.from && AllReceivable(b.args)
    ensures AsRead(cfg.servers[i].impl(c.op, c.args)) == AsRead(cfg.servers[i].impl(b.op, b.args))
  {
    hide GoodCall, Serves, AllReceivable, AsRead;
    assert Confusable(cfg, c, b, i);
  }

  /** An answer to q, received by the client that made call c, is right for c when some other client uses the key. */
  lemma SharedRight(cfg: Cfg, w: World, calls: iset<Msg>, c: Msg, b: Msg, q: Msg, m: Msg, i: nat)
    requires ToldApart(cfg, calls) && c in calls && b in calls && q in calls && c.Request? &&
      AnswerFrom(cfg, w, m, q, i)
    requires GoodCall(cfg, c) && GoodCall(cfg, b) && GoodCall(cfg, q) && KeyOf(c) == KeyOf(b) == KeyOf(q)
    requires b.from != c.from && AllReceivable(b.args) && (q.from == c.from || q == b)
    ensures RightBy(cfg, w, c, m, i)
  {
    hide GoodCall, AllReceivable, AsRead, ToldApart;
    ReadsLike(cfg, calls, c, b, i);
    if q != b {
      ReadsLike(cfg, calls, q, b, i);
    }
  }

  lemma MadeAllowed(cfg: Cfg, steps: seq<Step>, calls: iset<Msg>)
    requires ValidCfg(cfg) && MakesOnly(cfg, steps, calls)
    ensures forall q | q in Run(cfg, steps).calls :: q in calls && GoodCall(cfg, q)
  {
    hide Run, GoodCall, CallOf, ValidCfg;
    CallsAreGood(cfg, steps);
    forall q | q in Run(cfg, steps).calls
      ensures q in calls
    {
      CallsAreSteps(cfg, steps, q);
    }
  }

  /** The packet that the last step brings to ep is right for ep's open call. */
  lemma ArrivalRight(cfg: Cfg, steps: seq<Step>, calls: iset<Msg>, ep: Endpoint, k: nat, c: Msg)
    requires ValidCfg(cfg) && Waiting(cfg, steps) && MakesOnly(cfg, steps, calls) && ToldApart(cfg, calls) &&
      steps != []
    requires k < |Run(cfg, steps).delivered| && Run(cfg, steps).delivered[k] in Run(cfg, steps[..|steps| - 1]).net
    requires c.Request? && c.from == ep && c in Run(cfg, steps).calls && steps[|steps| - 1].Deliver?
    requires var m := Run(cfg, steps).delivered[k].body; m.Response? && KeyOf(m) == KeyOf(c)
    requires LastFrom(Run(cfg, steps).calls, ep, KeyOf(c)) == Some(c)
    ensures Right(cfg, Run(cfg, steps), c, Run(cfg, steps).delivered[k].body)
  {
    hide Run, ValidCfg, Waiting, LastFrom, ToldApart, AnswerFrom, GoodCall, FitsFrame, Serves, AsRead, MakesOnly;
    var w := Run(cfg, steps);
    var m, q, i := DeliveredAnswer(cfg, steps, k);
    MadeAllowed(cfg, steps, calls);
    AnswerOf(cfg, w, m, q, i);
    if q.from != ep {
      SharedRight(cfg, w, calls, c, q, q, m, i);
    } else if b :| b in w.calls && Answerable(KeyOf(c))(b) && b.from != ep {
      SharedRight(cfg, w, calls, c, b, q, m, i);
    } else {
      SoleRight(cfg, steps, ep, k, c);
    }
  }

  lemma AnswerOf(cfg: Cfg, w: World, m: Msg, q: Msg, i: int)
    requires AnswerFrom(cfg, w, m, q, i)
    ensures m.Response? && q.Request? && q in w.calls && KeyOf(q) == KeyOf(m) && AllReceivable(q.args)
  {
  }

  lemma SoleRight(cfg: Cfg, steps: seq<Step>, ep: Endpoint, k: nat, c: Msg)
    requires ValidCfg(cfg) && Waiting(cfg, steps) && steps != [] && steps[|steps| - 1].Deliver?
    requires k < |Run(cfg, steps).delivered| && Run(cfg, steps).delivered[k] in Run(cfg, steps[..|steps| - 1]).net
    requires c.Request? && Sole(Run(cfg, steps).calls, ep, KeyOf(c))
    requires var m := Run(cfg, steps).delivered[k].body; m.Response? && KeyOf(m) == KeyOf(c)
    requires LastFrom(Run(cfg, steps).calls, ep, KeyOf(c)) == Some(c)
    ensures Right(cfg, Run(cfg, steps), c, Run(cfg, steps).delivered[k].body)
  {
    hide Run, ValidCfg, Waiting, LastFrom, Serves, AsRead;
    var init, m := steps[..|steps| - 1], Run(cfg, steps).delivered[k].body;
    WaitingInit(cfg, steps);
    LastCall(cfg, steps);
    OwnContentKept(cfg, init, ep, KeyOf(c));
    ResponseLive(Run(cfg, steps).delivered[k]);
    assert Run(cfg, init).calls == Run(cfg, steps).calls;
    assert StemsFromLast(cfg, Run(cfg, init), m, ep, KeyOf(c));
    RunGrows(cfg, steps);
    StemsGrows(cfg, Run(cfg, init), Run(cfg, steps), m, c);
    var i :| AnswerFrom(cfg, Run(cfg, steps), m, c, i);
    assert RightBy(cfg, Run(cfg, steps), c, m, i);
  }

  lemma ResponseLive(p: Packet<Msg>)
    requires p.body.Response?
    ensures Live(KeyOf(p.body))(p)
  {
  }

  /** Every packet that has reached ep is right for its call. */
  ghost predicate RightInTurn(cfg: Cfg, steps: seq<Step>, ep: Endpoint)
  {
    var calls, packets := CallSteps(cfg, steps, ep), Arrived(Run(cfg, steps).delivered, ep);
    |packets| <= |calls| && forall n | 0 <= n < |packets| ::
      RightFor(cfg, Run(cfg, steps), steps, calls[n], packets[n].body)
  }

  ghost predicate RightFor(cfg: Cfg, w: World, steps: seq<Step>, j: nat, m: Msg)
  {
    j < |steps| && steps[j].Call? && Right(cfg, w, RequestOf(steps[j]), m)
  }

  lemma RightForLater(cfg: Cfg, steps: seq<Step>, j: nat, m: Msg)
    requires steps != [] && RightFor(cfg, Run(cfg, steps[..|steps| - 1]), steps[..|steps| - 1], j, m)
    ensures RightFor(cfg, Run(cfg, steps), steps, j, m)
  {
    hide Run, Right;
    RunGrows(cfg, steps);
    RightGrows(cfg, Run(cfg, steps[..|steps| - 1]), Run(cfg, steps), RequestOf(steps[j]), m);
  }

  /** What was right stays right. */
  lemma OldRight(cfg: Cfg, steps: seq<Step>, ep: Endpoint, t: nat)
    requires steps != [] && RightInTurn(cfg, steps[..|steps| - 1], ep) &&
      t < |Arrived(Run(cfg, steps[..|steps| - 1]).delivered, ep)|
    ensures t < |CallSteps(cfg, steps, ep)|
    ensures RightFor(cfg, Run(cfg, steps), steps, CallSteps(cfg, steps, ep)[t],
      Arrived(Run(cfg, steps[..|steps| - 1]).delivered, ep)[t].body)
  {
    hide Run, CallSteps, Arrived, CanCall, RightFor;
    LastCallStep(cfg, steps, ep);
    var init := steps[..|steps| - 1];
    RightForLater(cfg, steps, CallSteps(cfg, init, ep)[t], Arrived(Run(cfg, init).delivered, ep)[t].body);
  }

  lemma {:induction false} TurnsRight(cfg: Cfg, steps: seq<Step>, calls: iset<Msg>, ep: Endpoint)
    requires ValidCfg(cfg) && Waiting(cfg, steps) && MakesOnly(cfg, steps, calls) && ToldApart(cfg, calls)
    ensures RightInTurn(cfg, steps, ep)
  {
    if steps != [] {
      hide Run, ValidCfg, Waiting, MakesOnly, ToldApart, CallSteps, Arrived, RightFor, OneForOne;
      var init := steps[..|steps| - 1];
      WaitingInit(cfg, steps);
      MakesOnlyInit(cfg, steps, calls);
      TurnsRight(cfg, init, calls, ep);
      LastArrival(cfg, steps, ep);
      TurnsKept(cfg, steps, ep);
      OneForOneLength(steps, CallSteps(cfg, steps, ep), Arrived(Run(cfg, steps).delivered, ep));
      var before, after := Arrived(Run(cfg, init).delivered, ep), Arrived(Run(cfg, steps).delivered, ep);
      forall t | 0 <= t < |after|
        ensures RightFor(cfg, Run(cfg, steps), steps, CallSteps(cfg, steps, ep)[t], after[t].body)
      {
        if t < |before| {
          OldRight(cfg, steps, ep, t);
        } else {
          NewRight(cfg, steps, calls, ep, t);
        }
      }
    }
  }

  /** The packet brought by the last step answers the last call. */
  lemma NewTurn(cfg: Cfg, steps: seq<Step>, ep: Endpoint, t: nat) returns (j: nat)
    requires ValidCfg(cfg) && Waiting(cfg, steps) && steps != []
    requires t == |Arrived(Run(cfg, steps[..|steps| - 1]).delivered, ep)| < |Arrived(Run(cfg, steps).delivered, ep)|
    ensures t + 1 == |CallSteps(cfg, steps, ep)| && j == CallSteps(cfg, steps, ep)[t]
    ensures AnswersStep(steps, j, Arrived(Run(cfg, steps).delivered, ep)[t])
  {
    hide Run, ValidCfg, Waiting, CallSteps, Arrived, CanCall, AnswersStep;
    var init := steps[..|steps| - 1];
    TurnsKept(cfg, steps, ep);
    WaitingInit(cfg, steps);
    TurnsKept(cfg, init, ep);
    LastArrival(cfg, steps, ep);
    LastCallStep(cfg, steps, ep);
    j := CallSteps(cfg, steps, ep)[t];
  }

  lemma NewRight(cfg: Cfg, steps: seq<Step>, calls: iset<Msg>, ep: Endpoint, t: nat)
    requires ValidCfg(cfg) && Waiting(cfg, steps) && MakesOnly(cfg, steps, calls) && ToldApart(cfg, calls) &&
      steps != []
    requires t == |Arrived(Run(cfg, steps[..|steps| - 1]).delivered, ep)| < |Arrived(Run(cfg, steps).delivered, ep)|
    ensures t < |CallSteps(cfg, steps, ep)|
    ensures RightFor(cfg, Run(cfg, steps), steps, CallSteps(cfg, steps, ep)[t],
      Arrived(Run(cfg, steps).delivered, ep)[t].body)
  {
    hide Run, ValidCfg, Waiting, MakesOnly, ToldApart, CallSteps, Arrived, CanCall, LastFrom, Right;
    var j := NewTurn(cfg, steps, ep, t);
    LastArrival(cfg, steps, ep);
    LastOpen(cfg, steps, ep);
    ArrivalRight(cfg, steps, calls, ep, |Run(cfg, steps).delivered| - 1, RequestOf(steps[j]));
  }

  lemma MakesOnlyInit(cfg: Cfg, steps: seq<Step>, calls: iset<Msg>)
    requires steps != [] && MakesOnly(cfg, steps, calls)
    ensures MakesOnly(cfg, steps[..|steps| - 1], calls)
  {
    hide CanCall;
    var init := steps[..|steps| - 1];
    forall j, q | CallOf(cfg, init, j, q)
      ensures q in calls
    {
      assert CallOf(cfg, steps, j, q);
    }
  }

  // ---------- The exact conditions ----------

  /** The n-th packet that reaches ep answers the n-th call it made. */
  ghost predicate OwnAnswered(cfg: Cfg, steps: seq<Step>, ep: Endpoint, n: nat)
    requires ValidCfg(cfg) && n < |Arrived(WireRun(cfg, steps).delivered, ep)|
  {
    && n < |CallSteps(cfg, steps, ep)|
    && exists i, response ::
         Answers(cfg, steps, Arrived(WireRun(cfg, steps).delivered, ep)[n], CallSteps(cfg, steps, ep)[n], i, response)
  }

  /**
  Every call gets its own answer: when clients wait and their calls are told apart, the n-th packet
  that reaches a client answers the n-th call it made, so each of its client functions returns the
  result of the service on that very call's arguments.
  */
  lemma OwnAnswer(cfg: Cfg, steps: seq<Step>, calls: iset<Msg>, ep: Endpoint, n: nat)
    requires ValidCfg(cfg) && Waiting(cfg, steps) && MakesOnly(cfg, steps, calls) && ToldApart(cfg, calls)
    requires n < |Arrived(WireRun(cfg, steps).delivered, ep)|
    ensures OwnAnswered(cfg, steps, ep, n)
  {
    hide Run, WireRun, ValidCfg, Waiting, MakesOnly, ToldApart, CallSteps, Arrived, CanCall, Serves, AsRead, Answers,
      FitsFrame, GoodCall, Declared, WireBody, RegRecord;
    var k := ArrivedAnswer(cfg, steps, ep, n);
    TurnsRight(cfg, steps, calls, ep);
    var j := CallSteps(cfg, steps, ep)[n];
    var m, q, _, j' := DeliveredCall(cfg, steps, k);
    assert RightFor(cfg, Run(cfg, steps), steps, j, m);
    var i :| RightBy(cfg, Run(cfg, steps), RequestOf(steps[j]), m, i);
    CallDeclared(cfg, steps, j', q);
    SameDeclarations(cfg, steps, j, j');
    StepsCall(cfg, steps, ep, n);
    AnswersOnWire(cfg, steps, Run(cfg, steps).delivered[k], j, RequestOf(steps[j]), i);
  }

  lemma StepsCall(cfg: Cfg, steps: seq<Step>, ep: Endpoint, n: nat)
    requires n < |CallSteps(cfg, steps, ep)|
    ensures var j := CallSteps(cfg, steps, ep)[n];
      j < |steps| && steps[j].Call? && CallOf(cfg, steps, j, RequestOf(steps[j]))
  {
    hide CanCall;
    assert CallSteps(cfg, steps, ep)[n] in CallSteps(cfg, steps, ep);
  }

  /** Every packet that reached a client reached a caller whose call it answers. */
  ghost predicate AllDelivered(cfg: Cfg, steps: seq<Step>)
    requires ValidCfg(cfg)
  {
    forall k | 0 <= k < |WireRun(cfg, steps).delivered| ::
      RightlyDelivered(cfg, steps, WireRun(cfg, steps).delivered[k])
  }

  ghost predicate RightlyDelivered(cfg: Cfg, steps: seq<Step>, p: Packet<MsgPack.bytes>)
    requires ValidCfg(cfg)
  {
    exists j, i, response :: Answers(cfg, steps, p, j, i, response) && p.dest == To(steps[j].client)
  }

  /** Every packet that reached a client answers the call it was waiting for. */
  ghost predicate AllOwn(cfg: Cfg, steps: seq<Step>)
    requires ValidCfg(cfg)
  {
    forall ep, n | 0 <= n < |Arrived(WireRun(cfg, steps).delivered, ep)| :: OwnAnswered(cfg, steps, ep, n)
  }

  /** Calls that are not told apart make a run go wrong, even when clients wait. */
  lemma ConfusedRun(cfg: Cfg, calls: iset<Msg>) returns (steps: seq<Step>)
    requires ValidCfg(cfg) && !ToldApart(cfg, calls)
    ensures MakesOnly(cfg, steps, calls) && Waiting(cfg, steps) && !AllDelivered(cfg, steps) && !AllOwn(cfg, steps)
  {
    hide ValidCfg, FitsFrame, WireRun, CanCall, AllReceivable, AsRead, Serves, Run, Crossing;
    var q, q', i :| q in calls && q' in calls && 0 <= i < |cfg.servers| && Confusable(cfg, q, q', i)
      && AsRead(cfg.servers[i].impl(q.op, q.args)) != AsRead(cfg.servers[i].impl(q'.op, q'.args));
    var g := GoodCallMakes(cfg, q);
    var g' := GoodCallMakes(cfg, q');
    OneDeclaration(cfg, g, g');
    steps := Crossing(i, q.from, q'.from, g, q.id, q.args, q'.args);
    assert Crossed(cfg, i, q.from, q'.from, g, q.id, q.args, q'.args);
    CrossingMakesOnly(cfg, i, q, q', g, calls);
    CrossingWaits(cfg, i, q, q', g);
    CrossingWrong(cfg, i, q, q', g);
  }

  lemma GoodCallMakes(cfg: Cfg, q: Msg) returns (g: Generators.Sig)
    requires GoodCall(cfg, q)
    ensures g in cfg.header && g.name == q.op && CanCall(cfg, q.from, g, q.id, q.args)
    ensures q == Request(q.id, q.from, g.name, q.args)
  {
    hide FitsFrame;
    g :| Callable(cfg, q, g);
  }

  lemma CrossingMakesOnly(cfg: Cfg, i: nat, q: Msg, q': Msg, g: Generators.Sig, calls: iset<Msg>)
    requires q.Request? && q'.Request? && q in calls && q' in calls && KeyOf(q) == KeyOf(q') && g.name == q.op
    ensures MakesOnly(cfg, Crossing(i, q.from, q'.from, g, q.id, q.args, q'.args), calls)
  {
    hide CanCall, Crossing;
    CrossingSteps(i, q.from, q'.from, g, q.id, q.args, q'.args);
  }

  lemma ServesTable(s: ServerCfg, op: MsgPack.bytes)
    requires Serves(s, op)
    ensures [] !in s.table
  {
  }

  lemma CrossingWaits(cfg: Cfg, i: nat, q: Msg, q': Msg, g: Generators.Sig)
    requires q.Request? && q'.Request? && Crossed(cfg, i, q.from, q'.from, g, q.id, q.args, q'.args)
    ensures Waiting(cfg, Crossing(i, q.from, q'.from, g, q.id, q.args, q'.args))
  {
    hide CanCall, Crossing, ValidCfg, WireRun, Run, Apply, Serves, AllReceivable, AsRead, Arrived, CallSteps,
      HandshakeSteps;
    var steps := Crossing(i, q.from, q'.from, g, q.id, q.args, q'.args);
    CrossingSteps(i, q.from, q'.from, g, q.id, q.args, q'.args);
    ServesTable(cfg.servers[i], g.name);
    AfterHandshake(cfg, i);
    RunSnoc(cfg, HandshakeSteps(i), steps[3]);
    CallMade(cfg, Run(cfg, steps[..3]), q.from, g, q.id, q.args);
    forall j, ep | 0 <= j < |steps| && CallsFrom(cfg, steps[j], ep)
      ensures |Arrived(WireRun(cfg, steps[..j]).delivered, ep)| == |CallSteps(cfg, steps[..j], ep)|
    {
      NothingArrived(cfg, steps[..j], ep);
      NoCallsYet(cfg, steps[..j], ep);
    }
  }

  lemma NothingArrived(cfg: Cfg, steps: seq<Step>, ep: Endpoint)
    requires ValidCfg(cfg) && Run(cfg, steps).delivered == []
    ensures Arrived(WireRun(cfg, steps).delivered, ep) == []
  {
    hide Run, WireRun, ValidCfg;
    Refinement(cfg, steps);
    assert WireNet([]) == [];
  }

  lemma {:induction false} NoCallsYet(cfg: Cfg, steps: seq<Step>, ep: Endpoint)
    requires forall j | 0 <= j < |steps| :: !CallsFrom(cfg, steps[j], ep)
    ensures CallSteps(cfg, steps, ep) == []
  {
    hide CallsFrom;
    if steps != [] {
      NoCallsYet(cfg, steps[..|steps| - 1], ep);
    }
  }

  lemma CrossingWrong(cfg: Cfg, i: nat, q: Msg, q': Msg, g: Generators.Sig)
    requires q.Request? && q'.Request? && Crossed(cfg, i, q.from, q'.from, g, q.id, q.args, q'.args)
    ensures ValidCfg(cfg)
    ensures var steps := Crossing(i, q.from, q'.from, g, q.id, q.args, q'.args);
      !AllDelivered(cfg, steps) && !AllOwn(cfg, steps)
  {
    hide CanCall, Crossing, ValidCfg, WireRun, Run, Apply, AllReceivable, AsRead, Answers, RightlyDelivered;
    var steps := Crossing(i, q.from, q'.from, g, q.id, q.args, q'.args);
    CrossingSteps(i, q.from, q'.from, g, q.id, q.args, q'.args);
    Crosstalk(cfg, i, q.from, q'.from, g, q.id, q.args, q'.args);
    var p := WireRun(cfg, steps).delivered[0];
    OnlyCallRight(cfg, steps, p, q.from, 3);
    OnlyCallStep(cfg, steps, q.from, 3);
    ArrivedOne(WireRun(cfg, steps).delivered, q.from);
    assert !OwnAnswered(cfg, steps, q.from, 0);
  }

  /** A packet for a client that made one call is delivered rightly only if it answers this call. */
  lemma OnlyCallRight(cfg: Cfg, steps: seq<Step>, p: Packet<MsgPack.bytes>, ep: Endpoint, j: nat)
    requires ValidCfg(cfg) && p.dest == To(ep) && j < |steps|
    requires forall j' | 0 <= j' < |steps| && steps[j'].Call? && j' != j :: steps[j'].client != ep
    requires forall i, response :: !Answers(cfg, steps, p, j, i, response)
    ensures !RightlyDelivered(cfg, steps, p)
  {
    hide ValidCfg, CanCall, WireRun, HdrInt, HdrStr, Serves, AsRead;
  }

  lemma OnlyCallStep(cfg: Cfg, steps: seq<Step>, ep: Endpoint, j: nat)
    requires j < |steps| && CallsFrom(cfg, steps[j], ep)
    requires forall j' | 0 <= j' < |steps| && j' != j :: !CallsFrom(cfg, steps[j'], ep)
    ensures var calls := CallSteps(cfg, steps, ep); calls != [] && calls[0] == j
  {
    hide CallsFrom;
    CallStepsComplete(cfg, steps, ep, j);
    var calls := CallSteps(cfg, steps, ep);
    assert calls[0] in calls;
  }

  lemma ArrivedOne(delivered: seq<Packet<MsgPack.bytes>>, ep: Endpoint)
    requires |delivered| == 1 && delivered[0].dest == To(ep)
    ensures Arrived(delivered, ep) == delivered
  {
    assert delivered == [] + [delivered[0]];
    ArrivedSnoc([], delivered[0], ep);
    assert Arrived<MsgPack.bytes>([], ep) == [];
  }

  /**
  Exactly when deliveries are correct: every run that makes only these calls delivers every packet
  to a caller whose call it answers, if and only if the calls are told apart.
  */
  lemma DeliveryExactly(cfg: Cfg, calls: iset<Msg>)
    requires ValidCfg(cfg)
    ensures (forall steps | MakesOnly(cfg, steps, calls) :: AllDelivered(cfg, steps)) <==> ToldApart(cfg, calls)
  {
    hide ValidCfg, WireRun, MakesOnly, ToldApart, Answers;
    if ToldApart(cfg, calls) {
      forall steps | MakesOnly(cfg, steps, calls)
        ensures AllDelivered(cfg, steps)
      {
        forall k | 0 <= k < |WireRun(cfg, steps).delivered|
          ensures RightlyDelivered(cfg, steps, WireRun(cfg, steps).delivered[k])
        {
          CorrectDelivery(cfg, steps, calls, k);
        }
      }
    } else {
      var steps := ConfusedRun(cfg, calls);
    }
  }

  /**
  Exactly when calls return their own results: in every run that makes only these calls and in which
  clients wait, every packet answers the call its client is waiting for, if and only if the calls
  are told apart.
  */
  lemma OwnAnswersExactly(cfg: Cfg, calls: iset<Msg>)
    requires ValidCfg(cfg)
    ensures (forall steps | MakesOnly(cfg, steps, calls) && Waiting(cfg, steps) :: AllOwn(cfg, steps)) <==>
      ToldApart(cfg, calls)
  {
    hide ValidCfg, WireRun, MakesOnly, ToldApart, Answers, Waiting, OwnAnswered;
    if ToldApart(cfg, calls) {
      forall steps | MakesOnly(cfg, steps, calls) && Waiting(cfg, steps)
        ensures AllOwn(cfg, steps)
      {
        forall ep, n | 0 <= n < |Arrived(WireRun(cfg, steps).delivered, ep)|
          ensures OwnAnswered(cfg, steps, ep, n)
        {
          OwnAnswer(cfg, steps, calls, ep, n);
        }
      }
    } else {
      var steps := ConfusedRun(cfg, calls);
    }
  }
}
