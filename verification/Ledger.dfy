/**
The laws of conservation and of order, in terms of the steps of a run: which packets its steps
delivered, where, and in what order.
*/
module Ledger {
  import Rpc
  import opened MsgPack
  import opened Common
  import opened Broker
  import opened Messages
  import opened Protocol
  import opened Invariants
  import Steps
  import opened System
  import opened Theorems

  // ---------- The steps of one kind ----------

  type Kind = (World, Step) -> bool

  predicate Increasing(s: seq<nat>, limit: nat)
  {
    (forall a | 0 <= a < |s| :: s[a] < limit) && forall a, b | 0 <= a < b < |s| :: s[a] < s[b]
  }

  lemma IncreasingMore(s: seq<nat>, n: nat)
    requires Increasing(s, n)
    ensures Increasing(s + [], n + 1) && Increasing(s + [n], n + 1)
  {
    assert s + [] == s;
  }

  /** The steps of a run that are of this kind in the world that they find, in order. */
  ghost function StepsOf(cfg: Cfg, steps: seq<Step>, kind: Kind): (r: seq<nat>)
    ensures Increasing(r, |steps|)
  {
    if steps == [] then [] else
    var n := |steps| - 1;
    IncreasingMore(StepsOf(cfg, steps[..n], kind), n);
    StepsOf(cfg, steps[..n], kind) + if kind(Run(cfg, steps[..n]), steps[n]) then [n] else []
  }

  /** All of them, and no others. */
  lemma {:induction false} StepsOfComplete(cfg: Cfg, steps: seq<Step>, kind: Kind, j: int)
    ensures j in StepsOf(cfg, steps, kind) <==> 0 <= j < |steps| && kind(Run(cfg, steps[..j]), steps[j])
  {
    hide Run;
    if steps != [] {
      var n := |steps| - 1;
      StepsOfComplete(cfg, steps[..n], kind, j);
      if 0 <= j < n {
        assert steps[..n][..j] == steps[..j];
      }
    }
  }

  /** Step r[n] comes behind exactly n steps of its kind. */
  lemma {:induction false} StepsBefore(cfg: Cfg, steps: seq<Step>, kind: Kind, n: nat)
    requires n < |StepsOf(cfg, steps, kind)|
    ensures var j := StepsOf(cfg, steps, kind)[n];
      && j < |steps| && kind(Run(cfg, steps[..j]), steps[j])
      && StepsOf(cfg, steps[..j], kind) == StepsOf(cfg, steps, kind)[..n]
  {
    hide Run;
    var last := |steps| - 1;
    var init := StepsOf(cfg, steps[..last], kind);
    if n < |init| {
      StepsBefore(cfg, steps[..last], kind, n);
      assert steps[..last][..init[n]] == steps[..init[n]];
    }
  }

  // ---------- Kinds of steps ----------

  /** The packet that the step delivers has these traits. */
  ghost predicate Delivers(w: World, step: Step, toBroker: bool, request: bool, key: Key)
  {
    && step.Deliver? && step.k < |w.net| && w.net[step.k].dest.ToBroker? == toBroker
    && if request then IsRequest(w.net[step.k].body, key) else IsResponse(w.net[step.k].body, key)
  }

  predicate IsRequest(m: Msg, key: Key)
  {
    m.Request? && m.id == key.id && m.op == key.op
  }

  predicate IsResponse(m: Msg, key: Key)
  {
    m.Response? && m.id == key.id && m.op == key.op
  }

  /** A client makes a call. */
  ghost function CallsMade(cfg: Cfg, key: Key): Kind
  {
    (w: World, step: Step) =>
      step.Call? && step.id == key.id && step.sig.name == key.op
      && CanCall(cfg, step.client, step.sig, step.id, step.args)
  }

  /** The broker, which is up, reads a request. */
  ghost function RequestsRead(key: Key): Kind
  {
    (w: World, step: Step) => !w.crashed && Delivers(w, step, true, true, key)
  }

  /** The broker, which is up, reads a response. */
  ghost function ResponsesRead(key: Key): Kind
  {
    (w: World, step: Step) => !w.crashed && Delivers(w, step, true, false, key)
  }

  /** The broker, which is up, reads a request for an operation that none of its records lists. */
  ghost function RequestsUnrouted(key: Key): Kind
  {
    (w: World, step: Step) =>
      !w.crashed && Delivers(w, step, true, true, key) && forall r | r in w.broker.svc :: !Lists(r, key.op)
  }

  /** The request reaches server i, which is dead or not registered, or does not implement it, or dies of it. */
  ghost predicate DropsNow(cfg: Cfg, w: World, i: int, p: Packet<Msg>)
  {
    && 0 <= i < |cfg.servers| && i < |w.registered| && p.dest == To(cfg.servers[i].ep) && p.body.Request?
    && (i in w.dead || !w.registered[i] || !Implements(cfg.servers[i].iface, p.body.op)
        || !Rpc.AllReceivable(p.body.args))
  }

  ghost function RequestsDropped(cfg: Cfg, key: Key): Kind
  {
    (w: World, step: Step) =>
      Delivers(w, step, false, true, key) && exists i :: DropsNow(cfg, w, i, w.net[step.k])
  }

  /** A response reaches an endpoint that is no server's. */
  ghost function ResponsesReceived(cfg: Cfg, key: Key): Kind
  {
    (w: World, step: Step) =>
      Delivers(w, step, false, false, key) && forall s | s in cfg.servers :: w.net[step.k].dest != To(s.ep)
  }

  // ---------- What a world holds ----------

  /** The requests in flight, to the broker or away from it. */
  ghost function RequestsIn(net: seq<Packet<Msg>>, toBroker: bool, key: Key): set<nat>
  {
    set k: nat | k < |net| && net[k].dest.ToBroker? == toBroker && IsRequest(net[k].body, key)
  }

  ghost function ResponsesIn(net: seq<Packet<Msg>>, toBroker: bool, key: Key): set<nat>
  {
    set k: nat | k < |net| && net[k].dest.ToBroker? == toBroker && IsResponse(net[k].body, key)
  }

  ghost function EntriesIn(pending: seq<ClientReg>, key: Key): set<nat>
  {
    set k: nat | k < |pending| && pending[k].message_id == key.id && pending[k].operation == key.op
  }

  ghost function Occurrences<T>(s: seq<T>, x: T): set<nat>
  {
    set k: nat | k < |s| && s[k] == x
  }

  lemma {:induction false} Cardinality<T>(s: seq<T>, x: T)
    ensures multiset(s)[x] == |Occurrences(s, x)|
  {
    if s != [] {
      var n := |s| - 1;
      Cardinality(s[..n], x);
      assert s == s[..n] + [s[n]];
      assert Occurrences(s, x) == Occurrences(s[..n], x) + if s[n] == x then {n} else {};
    }
  }

  lemma CountIsCardinality(net: seq<Packet<Msg>>, key: Key)
    ensures Count(net, Tag(RequestIn, key)) == |RequestsIn(net, true, key)|
    ensures Count(net, Tag(RequestOut, key)) == |RequestsIn(net, false, key)|
    ensures Count(net, Tag(ResponseIn, key)) == |ResponsesIn(net, true, key)|
    ensures Count(net, Tag(ResponseOut, key)) == |ResponsesIn(net, false, key)|
  {
    TagPositions(net, Tag(RequestIn, key));
    TagPositions(net, Tag(RequestOut, key));
    TagPositions(net, Tag(ResponseIn, key));
    TagPositions(net, Tag(ResponseOut, key));
    assert RequestsIn(net, true, key) == TaggedIn(net, Tag(RequestIn, key));
    assert RequestsIn(net, false, key) == TaggedIn(net, Tag(RequestOut, key));
    assert ResponsesIn(net, true, key) == TaggedIn(net, Tag(ResponseIn, key));
    assert ResponsesIn(net, false, key) == TaggedIn(net, Tag(ResponseOut, key));
  }

  ghost function TaggedIn(net: seq<Packet<Msg>>, t: Tag): set<nat>
  {
    set k: nat | k < |net| && TagOf(net[k]) == t
  }

  lemma TagPositions(net: seq<Packet<Msg>>, t: Tag)
    ensures Count(net, t) == |TaggedIn(net, t)|
  {
    Cardinality(Tags(net), t);
    assert TaggedIn(net, t) == Occurrences(Tags(net), t);
  }

  lemma EntriesCardinality(pending: seq<ClientReg>, key: Key)
    ensures CountEntries(pending, key) == |EntriesIn(pending, key)|
  {
    Cardinality(EntryKeys(pending), key);
    assert EntriesIn(pending, key) == Occurrences(EntryKeys(pending), key);
  }

  // ---------- The histories are what the steps did ----------

  /** What one step adds to the histories. */
  lemma StepCounts(cfg: Cfg, w: World, step: Step, key: Key)
    requires ValidCfg(cfg) && Inv(cfg, w) && |w.registered| == |cfg.servers|
    ensures var w' := Apply(cfg, w, step);
      && multiset(w'.unrouted)[key] == multiset(w.unrouted)[key] + One(RequestsUnrouted(key)(w, step))
      && multiset(w'.dropped)[key] == multiset(w.dropped)[key] + One(RequestsDropped(cfg, key)(w, step))
      && Count(w'.delivered, Tag(ResponseOut, key)) ==
           Count(w.delivered, Tag(ResponseOut, key)) + One(ResponsesReceived(cfg, key)(w, step))
  {
    hide Inv, ValidCfg, Count;
    UnroutedCount(cfg, w, step, key);
    DroppedCount(cfg, w, step, key);
    ReceivedCount(cfg, w, step, key);
  }

  lemma RouteKnown(cfg: Cfg, w: World, op: bytes)
    requires Inv(cfg, w)
    ensures Route(w.broker.svc, op).Ok?
    ensures Route(w.broker.svc, op).value.None? <==> forall r | r in w.broker.svc :: !Lists(r, op)
    ensures Route(w.broker.svc, op).value.Some? ==>
      var to := Destination(Route(w.broker.svc, op).value.value); to.Ok? && to.value.Some?
  {
    hide Route, Accounts, Lists, Destination;
    Steps.RecordsComplete(cfg, w);
    RouteMeaning(w.broker.svc, op);
    Steps.RouteFound(cfg, w, op);
  }

  lemma UnroutedCount(cfg: Cfg, w: World, step: Step, key: Key)
    requires ValidCfg(cfg) && Inv(cfg, w) && |w.registered| == |cfg.servers|
    ensures multiset(Apply(cfg, w, step).unrouted)[key] ==
      multiset(w.unrouted)[key] + One(RequestsUnrouted(key)(w, step))
  {
    hide Inv, ValidCfg, CanCall, ServerAt, Route, Destination, Implements, Rpc.AllReceivable, FirstMatch, Lists,
      RemoveAt;
    if step.Deliver? && step.k < |w.net| && w.net[step.k].body.Request? {
      RouteKnown(cfg, w, w.net[step.k].body.op);
    }
  }

  lemma DroppedCount(cfg: Cfg, w: World, step: Step, key: Key)
    requires ValidCfg(cfg) && |w.registered| == |cfg.servers|
    ensures multiset(Apply(cfg, w, step).dropped)[key] ==
      multiset(w.dropped)[key] + One(RequestsDropped(cfg, key)(w, step))
  {
    hide ValidCfg, CanCall, ServerAt, Route, Destination, Implements, Rpc.AllReceivable, FirstMatch, RemoveAt,
      DropsNow;
    if step.Deliver? && step.k < |w.net| && w.net[step.k].dest.To? {
      DroppedBy(cfg, w, w.net[step.k]);
    } else if step.Deliver? && step.k < |w.net| {
      assert forall i :: !DropsNow(cfg, w, i, w.net[step.k]) by { OnlyServersDrop(cfg, w, w.net[step.k]); }
    }
  }

  lemma OnlyServersDrop(cfg: Cfg, w: World, p: Packet<Msg>)
    requires p.dest.ToBroker?
    ensures forall i :: !DropsNow(cfg, w, i, p)
  {
  }

  /** A request is dropped by the server it is addressed to. */
  lemma DroppedBy(cfg: Cfg, w: World, p: Packet<Msg>)
    requires ValidCfg(cfg) && |w.registered| == |cfg.servers| && p.dest.To?
    ensures (exists i :: DropsNow(cfg, w, i, p)) <==>
      && IsServer(cfg, p.dest.ep) && p.body.Request?
      && var i := ServerAt(cfg.servers, p.dest.ep);
         i in w.dead || !w.registered[i] || !Implements(cfg.servers[i].iface, p.body.op)
         || !Rpc.AllReceivable(p.body.args)
  {
    hide ValidCfg, ServerAt, Implements, Rpc.AllReceivable;
    forall i | DropsNow(cfg, w, i, p)
      ensures ServerAt(cfg.servers, p.dest.ep) == i
    {
      Steps.EndpointsDiffer(cfg, i);
    }
    var i := ServerAt(cfg.servers, p.dest.ep);
    if i < |cfg.servers| && p.body.Request? && (i in w.dead || !w.registered[i]
        || !Implements(cfg.servers[i].iface, p.body.op) || !Rpc.AllReceivable(p.body.args)) {
      assert DropsNow(cfg, w, i, p);
    }
  }

  lemma ReceivedCount(cfg: Cfg, w: World, step: Step, key: Key)
    requires |w.registered| == |cfg.servers|
    ensures Count(Apply(cfg, w, step).delivered, Tag(ResponseOut, key)) ==
      Count(w.delivered, Tag(ResponseOut, key)) + One(ResponsesReceived(cfg, key)(w, step))
  {
    hide CanCall, ServerAt, Route, Destination, Implements, Rpc.AllReceivable, FirstMatch, RemoveAt, Count;
    if step.Deliver? && step.k < |w.net| {
      CountSent(w.delivered, w.net[step.k], Tag(ResponseOut, key));
    }
  }

  lemma {:induction false} HistoriesCount(cfg: Cfg, steps: seq<Step>, key: Key)
    requires ValidCfg(cfg)
    ensures var w := Run(cfg, steps);
      && multiset(w.unrouted)[key] == |StepsOf(cfg, steps, RequestsUnrouted(key))|
      && multiset(w.dropped)[key] == |StepsOf(cfg, steps, RequestsDropped(cfg, key))|
      && Count(w.delivered, Tag(ResponseOut, key)) == |StepsOf(cfg, steps, ResponsesReceived(cfg, key))|
  {
    hide Apply, ValidCfg, Inv, RequestsUnrouted, RequestsDropped, ResponsesReceived;
    if steps != [] {
      var n := |steps| - 1;
      HistoriesCount(cfg, steps[..n], key);
      Steps.RunInv(cfg, steps[..n]);
      StepCounts(cfg, Run(cfg, steps[..n]), steps[n], key);
    }
  }

  lemma CallCounts(cfg: Cfg, w: World, step: Step, key: Key)
    requires |w.registered| == |cfg.servers| && Steps.OnlyRequests(w.calls)
    ensures Steps.OnlyRequests(Apply(cfg, w, step).calls)
    ensures multiset(CallKeys(Apply(cfg, w, step).calls))[key] ==
      multiset(CallKeys(w.calls))[key] + One(CallsMade(cfg, key)(w, step))
  {
    hide Apply, CanCall;
    ApplyCalls(cfg, w, step);
    var after := Apply(cfg, w, step).calls;
    if |after| == |w.calls| + 1 {
      assert CallKeys(after) == CallKeys(w.calls) + [KeyOf(after[|w.calls|])];
    } else {
      assert after == w.calls;
    }
  }

  lemma {:induction false} CallsCount(cfg: Cfg, steps: seq<Step>, key: Key)
    ensures Steps.OnlyRequests(Run(cfg, steps).calls)
    ensures multiset(CallKeys(Run(cfg, steps).calls))[key] == |StepsOf(cfg, steps, CallsMade(cfg, key))|
  {
    if steps != [] {
      hide Apply, CallsMade, CallKeys;
      CallsCount(cfg, steps[..|steps| - 1], key);
      CallCounts(cfg, Run(cfg, steps[..|steps| - 1]), steps[|steps| - 1], key);
    }
  }

  /**
  Conservation: for every message id and operation, the broker's pending entries are exactly the
  requests forwarded and not yet handled, the responses on their way to the broker, and one for each
  step in which the broker found no server for a request or a server dropped one; and the calls that
  were made are exactly the requests on their way to the broker, the pending entries, the responses
  on their way to clients and one for each step in which a response reached a client.
  */
  lemma Conservation(cfg: Cfg, steps: seq<Step>, key: Key)
    requires ValidCfg(cfg)
    ensures WireRun(cfg, steps) == Wire(Run(cfg, steps))
    ensures var w := Run(cfg, steps);
      && |EntriesIn(w.broker.pending, key)| ==
           |RequestsIn(w.net, false, key)| + |ResponsesIn(w.net, true, key)|
           + |StepsOf(cfg, steps, RequestsUnrouted(key))| + |StepsOf(cfg, steps, RequestsDropped(cfg, key))|
      && |StepsOf(cfg, steps, CallsMade(cfg, key))| ==
           |RequestsIn(w.net, true, key)| + |EntriesIn(w.broker.pending, key)|
           + |ResponsesIn(w.net, false, key)| + |StepsOf(cfg, steps, ResponsesReceived(cfg, key))|
  {
    hide Run, WireRun, Wire, Count, CountEntries, StepsOf, EntriesIn, RequestsIn, ResponsesIn, ValidCfg;
    hide RequestsUnrouted, RequestsDropped, CallsMade, ResponsesReceived;
    var w := Run(cfg, steps);
    Books(cfg, steps, key);
    HistoriesCount(cfg, steps, key);
    CallsCount(cfg, steps, key);
    CountIsCardinality(w.net, key);
    EntriesCardinality(w.broker.pending, key);
  }

  // ---------- First come, first served ----------

  lemma {:induction false} StepsPrefix(cfg: Cfg, steps: seq<Step>, kind: Kind, n: nat)
    requires n <= |steps|
    ensures StepsOf(cfg, steps[..n], kind) <= StepsOf(cfg, steps, kind)
  {
    hide Run;
    if n < |steps| {
      StepsPrefix(cfg, steps[..|steps| - 1], kind, n);
      assert steps[..|steps| - 1][..n] == steps[..n];
    } else {
      assert steps[..n] == steps;
    }
  }

  lemma StepArrives(cfg: Cfg, w: World, step: Step, key: Key)
    requires |w.registered| == |cfg.servers|
    ensures ForKey(Apply(cfg, w, step).arrivals, key) ==
      ForKey(w.arrivals, key) + if RequestsRead(key)(w, step) then [PendingOf(w.net[step.k].body)] else []
  {
    hide CanCall, ServerAt, Route, Destination, Implements, Rpc.AllReceivable, FirstMatch, RemoveAt, ForKey;
    if step.Deliver? && step.k < |w.net| && w.net[step.k].body.Request? {
      Steps.ForKeyAppend(w.arrivals, [PendingOf(w.net[step.k].body)], key);
      Steps.ForKeyOne(PendingOf(w.net[step.k].body), key);
    }
  }

  lemma StepAnswers(cfg: Cfg, w: World, step: Step, key: Key)
    requires Inv(cfg, w) && |w.registered| == |cfg.servers|
    ensures |ForKey(Apply(cfg, w, step).answered, key)| == |ForKey(w.answered, key)| + One(ResponsesRead(key)(w, step))
  {
    hide Inv, CanCall, ServerAt, Route, Destination, Implements, Rpc.AllReceivable, FirstMatch, RemoveAt, ForKey;
    if step.Deliver? && step.k < |w.net| && w.net[step.k].dest.ToBroker? && w.net[step.k].body.Response? {
      Steps.ResponseFinds(cfg, w, step.k);
      var m := w.net[step.k].body;
      var e := w.broker.pending[FirstMatch(w.broker.pending, m.id, m.op)];
      Steps.ForKeyAppend(w.answered, [e], key);
      Steps.ForKeyOne(e, key);
    }
  }

  lemma {:induction false} OrderCounts(cfg: Cfg, steps: seq<Step>, key: Key)
    requires ValidCfg(cfg)
    ensures |ForKey(Run(cfg, steps).arrivals, key)| == |StepsOf(cfg, steps, RequestsRead(key))|
    ensures |ForKey(Run(cfg, steps).answered, key)| == |StepsOf(cfg, steps, ResponsesRead(key))|
  {
    hide Apply, ValidCfg, Inv, RequestsRead, ResponsesRead;
    if steps != [] {
      var n := |steps| - 1;
      OrderCounts(cfg, steps[..n], key);
      Steps.RunInv(cfg, steps[..n]);
      StepArrives(cfg, Run(cfg, steps[..n]), steps[n], key);
      StepAnswers(cfg, Run(cfg, steps[..n]), steps[n], key);
    }
  }

  /** The packet that step j delivers. */
  ghost function Delivered(cfg: Cfg, steps: seq<Step>, j: nat): Packet<Msg>
    requires j < |steps|
  {
    var w := Run(cfg, steps[..j]);
    if steps[j].Deliver? && steps[j].k < |w.net| then w.net[steps[j].k] else Packet(ToBroker, Ack)
  }

  /** The n-th arrival is the entry of the n-th request that the broker read. */
  lemma {:induction false} ArrivalAt(cfg: Cfg, steps: seq<Step>, key: Key, n: nat)
    requires ValidCfg(cfg) && n < |StepsOf(cfg, steps, RequestsRead(key))|
    ensures var p := Delivered(cfg, steps, StepsOf(cfg, steps, RequestsRead(key))[n]);
      && p.dest.ToBroker? && IsRequest(p.body, key) && n < |ForKey(Run(cfg, steps).arrivals, key)|
      && ForKey(Run(cfg, steps).arrivals, key)[n] == PendingOf(p.body)
  {
    hide Apply, ValidCfg, ForKey, IsRequest;
    var last := |steps| - 1;
    var init := StepsOf(cfg, steps[..last], RequestsRead(key));
    StepArrives(cfg, Run(cfg, steps[..last]), steps[last], key);
    OrderCounts(cfg, steps[..last], key);
    if n < |init| {
      ArrivalAt(cfg, steps[..last], key, n);
      assert steps[..last][..init[n]] == steps[..init[n]];
    }
  }

  /** The broker sends m on to the client that q is from, and forgets the entry of q. */
  ghost predicate SentOn(w: World, w': World, k: nat, m: Msg, q: Msg)
  {
    && q.Request? && k < |w.net| && w.net[k] == Packet(ToBroker, m)
    && w'.net == w.net[..k] + w.net[k + 1..] + [Packet(To(q.from), m)]
    && exists j: nat :: j < |w.broker.pending| && w.broker.pending[j] == PendingOf(q)
         && w'.broker == w.broker.(pending := w.broker.pending[..j] + w.broker.pending[j + 1..])
  }

  lemma ResponseSentOn(cfg: Cfg, w: World, step: Step, key: Key, q: Msg)
    requires |w.registered| == |cfg.servers| && ResponsesRead(key)(w, step) && q.Request?
    requires var k := FirstMatch(w.broker.pending, key.id, key.op);
      k < |w.broker.pending| && w.broker.pending[k] == PendingOf(q)
    ensures SentOn(w, Apply(cfg, w, step), step.k, w.net[step.k].body, q)
  {
    hide CanCall, FirstMatch;
  }

  /**
  First come, first served: of the requests and responses with one id and operation, the n-th
  response that the broker reads comes behind the n-th request and goes to the client it was from.
  */
  lemma OldestFirst(cfg: Cfg, steps: seq<Step>, key: Key, n: nat)
    requires ValidCfg(cfg) && n < |StepsOf(cfg, steps, ResponsesRead(key))|
    ensures n < |StepsOf(cfg, steps, RequestsRead(key))|
    ensures var a, s := StepsOf(cfg, steps, RequestsRead(key))[n], StepsOf(cfg, steps, ResponsesRead(key))[n];
      && a < s < |steps|
      && var q, m := Delivered(cfg, steps, a), Delivered(cfg, steps, s);
      && q.dest.ToBroker? && IsRequest(q.body, key) && m.dest.ToBroker? && IsResponse(m.body, key)
      && steps[s].Deliver? && SentOn(Run(cfg, steps[..s]), Run(cfg, steps[..s + 1]), steps[s].k, m.body, q.body)
  {
    hide Run, ValidCfg, Inv, SentOn, Apply, ForKey, FirstMatch, StepsOf;
    StepsBefore(cfg, steps, ResponsesRead(key), n);
    var s := StepsOf(cfg, steps, ResponsesRead(key))[n];
    var before := steps[..s];
    StepsPrefix(cfg, steps, RequestsRead(key), s);
    OrderCounts(cfg, before, key);
    TakesOldest(cfg, before, steps[s], key);
    ArrivalAt(cfg, before, key, n);
    var a := StepsOf(cfg, before, RequestsRead(key))[n];
    assert before[..a] == steps[..a];
    OneStep(cfg, steps, s);
    ResponseSentOn(cfg, Run(cfg, before), steps[s], key, Delivered(cfg, steps, a).body);
  }

  lemma OneStep(cfg: Cfg, steps: seq<Step>, s: nat)
    requires s < |steps|
    ensures |Run(cfg, steps[..s]).registered| == |cfg.servers|
    ensures Run(cfg, steps[..s + 1]) == Apply(cfg, Run(cfg, steps[..s]), steps[s])
  {
    hide Apply;
    assert steps[..s + 1][..s] == steps[..s];
  }

  /** The entry a response takes is the oldest one that is not answered. */
  lemma TakesOldest(cfg: Cfg, steps: seq<Step>, step: Step, key: Key)
    requires ValidCfg(cfg) && ResponsesRead(key)(Run(cfg, steps), step)
    ensures var w := Run(cfg, steps);
      var k := FirstMatch(w.broker.pending, key.id, key.op);
      && k < |w.broker.pending| && |ForKey(w.answered, key)| < |ForKey(w.arrivals, key)|
      && w.broker.pending[k] == ForKey(w.arrivals, key)[|ForKey(w.answered, key)|]
  {
    hide Run, ValidCfg, Inv, Subsequence;
    Steps.RunInv(cfg, steps);
    Steps.ResponseFinds(cfg, Run(cfg, steps), step.k);
    NextTaken(cfg, steps, key.id, key.op);
  }
}
