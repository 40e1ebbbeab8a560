/**
Two balances that every step keeps, whatever the configuration: what each client is owed, and how
many answers there can be.
*/
module Balances {
  import opened Common
  import opened Broker
  import opened Messages
  import Rpc
  import opened Protocol

  // ---------- Counting by a predicate ----------

  /** How many elements of s satisfy p. */
  function Tally<T>(s: seq<T>, p: T -> bool): nat
  {
    if s == [] then 0 else Tally(s[..|s| - 1], p) + One(p(s[|s| - 1]))
  }

  ghost function Positions<T>(s: seq<T>, p: T -> bool): set<nat>
  {
    set k: nat | k < |s| && p(s[k])
  }

  /** It counts positions. */
  lemma {:induction false} TallyMeaning<T>(s: seq<T>, p: T -> bool)
    ensures Tally(s, p) == |Positions(s, p)|
  {
    if s != [] {
      var n := |s| - 1;
      TallyMeaning(s[..n], p);
      assert Positions(s, p) == Positions(s[..n], p) + if p(s[n]) then {n} else {};
    }
  }

  lemma TallySnoc<T>(s: seq<T>, x: T, p: T -> bool)
    ensures Tally(s + [x], p) == Tally(s, p) + One(p(x))
  {
    assert (s + [x])[..|s|] == s;
  }

  lemma {:induction false} TallyTaken<T>(s: seq<T>, k: nat, p: T -> bool)
    requires k < |s|
    ensures Tally(s, p) == Tally(RemoveAt(s, k), p) + One(p(s[k]))
  {
    var n := |s| - 1;
    if k < n {
      TallyTaken(s[..n], k, p);
      assert RemoveAt(s, k) == RemoveAt(s[..n], k) + [s[n]];
      TallySnoc(RemoveAt(s[..n], k), s[n], p);
    } else {
      assert RemoveAt(s, k) == s[..n];
    }
  }

  lemma {:induction false} TallyNone<T>(s: seq<T>, p: T -> bool)
    requires Tally(s, p) == 0
    ensures forall x | x in s :: !p(x)
  {
    if s != [] {
      TallyNone(s[..|s| - 1], p);
    }
  }

  lemma {:induction false} TallyAtMost<T>(s: seq<T>, p: T -> bool, q: T -> bool)
    requires forall x | x in s && p(x) :: q(x)
    ensures Tally(s, p) <= Tally(s, q)
  {
    if s != [] {
      TallyAtMost(s[..|s| - 1], p, q);
    }
  }

  // ---------- What a client is owed ----------

  /** Calls from ep with this key. */
  function CallFrom(ep: Endpoint, key: Key): Msg -> bool
  {
    (m: Msg) => m.Request? && m.from == ep && KeyOf(m) == key
  }

  /** Packets that carry such a call to the broker, or an answer to ep. */
  function Owed(ep: Endpoint, key: Key): Packet<Msg> -> bool
  {
    (p: Packet<Msg>) =>
      if p.dest.ToBroker? then CallFrom(ep, key)(p.body)
      else p.body.Response? && p.dest.ep == ep && KeyOf(p.body) == key
  }

  /** Pending entries for such a call. */
  function EntryFrom(ep: Endpoint, key: Key): ClientReg -> bool
  {
    (e: ClientReg) => Endpoint(e.address, e.port) == ep && EntryKey(e) == key
  }

  ghost predicate Settled(w: World, ep: Endpoint, key: Key)
  {
    Tally(w.calls, CallFrom(ep, key)) ==
      Tally(w.net, Owed(ep, key)) + Tally(w.broker.pending, EntryFrom(ep, key)) + Tally(w.delivered, Owed(ep, key))
  }

  lemma SettledSend(cfg: Cfg, w: World, step: Step, ep: Endpoint, key: Key)
    requires |w.registered| == |cfg.servers| && Settled(w, ep, key) && !step.Deliver?
    ensures Settled(Apply(cfg, w, step), ep, key)
  {
    hide CanCall;
    var w' := Apply(cfg, w, step);
    if |w'.net| == |w.net| + 1 {
      TallySnoc(w.net, w'.net[|w.net|], Owed(ep, key));
    }
    if |w'.calls| == |w.calls| + 1 {
      TallySnoc(w.calls, w'.calls[|w.calls|], CallFrom(ep, key));
    }
  }

  lemma SettledAtBroker(w: World, w': World, m: Msg, ep: Endpoint, key: Key)
    requires w' == AtBroker(w, m)
    ensures w'.calls == w.calls && w'.delivered == w.delivered
    ensures Tally(w'.net, Owed(ep, key)) + Tally(w'.broker.pending, EntryFrom(ep, key)) ==
      Tally(w.net, Owed(ep, key)) + Tally(w.broker.pending, EntryFrom(ep, key)) + One(CallFrom(ep, key)(m))
  {
    hide Route, Destination, FirstMatch, Tally;
    if |w'.net| == |w.net| + 1 {
      TallySnoc(w.net, w'.net[|w.net|], Owed(ep, key));
    }
    match m
    case Request(_, _, _, _) => TallySnoc(w.broker.pending, PendingOf(m), EntryFrom(ep, key));
    case Response(id, op, _) =>
      var k := FirstMatch(w.broker.pending, id, op);
      if k < |w.broker.pending| {
        TallyTaken(w.broker.pending, k, EntryFrom(ep, key));
      }
    case _ =>
  }

  lemma SettledDeliver(cfg: Cfg, w: World, k: nat, ep: Endpoint, key: Key)
    requires |w.registered| == |cfg.servers| && Settled(w, ep, key) && !IsServer(cfg, ep) && k < |w.net|
    ensures Settled(Apply(cfg, w, Deliver(k)), ep, key)
  {
    hide CanCall, ServerAt, AtBroker, Tally, Implements, Rpc.AllReceivable;
    var p, w' := w.net[k], Apply(cfg, w, Deliver(k));
    if w.crashed && p.dest.ToBroker? {
      return;
    }
    var rest := w.(net := RemoveAt(w.net, k));
    TallyTaken(w.net, k, Owed(ep, key));
    match p.dest
    case ToBroker => SettledAtBroker(rest, w', p.body, ep, key);
    case To(dest) =>
      if IsServer(cfg, dest) {
        if |w'.net| == |rest.net| + 1 {
          TallySnoc(rest.net, w'.net[|rest.net|], Owed(ep, key));
        }
      } else {
        TallySnoc(w.delivered, p, Owed(ep, key));
      }
  }

  /**
  For every client, id and operation: its calls are the requests on their way to the broker, the
  entries pending there, and the answers that are on their way to it or have reached it.
  */
  lemma {:induction false} EachClientSettled(cfg: Cfg, steps: seq<Step>, ep: Endpoint, key: Key)
    requires !IsServer(cfg, ep)
    ensures Settled(Run(cfg, steps), ep, key)
  {
    hide Apply, Settled;
    if steps == [] {
      SettledStart(cfg, ep, key);
    } else {
      var n := |steps| - 1;
      EachClientSettled(cfg, steps[..n], ep, key);
      var w := Run(cfg, steps[..n]);
      match steps[n]
      case Deliver(k) =>
        if k < |w.net| {
          SettledDeliver(cfg, w, k, ep, key);
        } else {
          NothingToDeliver(cfg, w, k);
        }
      case _ => SettledSend(cfg, w, steps[n], ep, key);
    }
  }

  lemma SettledStart(cfg: Cfg, ep: Endpoint, key: Key)
    ensures Settled(InitWorld(cfg), ep, key)
  {
  }

  lemma NothingToDeliver(cfg: Cfg, w: World, k: nat)
    requires |w.registered| == |cfg.servers| && k >= |w.net|
    ensures Apply(cfg, w, Deliver(k)) == w
  {
    hide CanCall;
  }

  // ---------- How many answers there can be ----------

  /** Calls with this key that a server can answer. */
  function Answerable(key: Key): Msg -> bool
  {
    (m: Msg) => m.Request? && KeyOf(m) == key && Rpc.AllReceivable(m.args)
  }

  /** Packets with such a call, or an answer to one. */
  function Live(key: Key): Packet<Msg> -> bool
  {
    (p: Packet<Msg>) => Answerable(key)(p.body) || (p.body.Response? && KeyOf(p.body) == key)
  }

  ghost predicate Bounded(w: World, key: Key)
  {
    Tally(w.net, Live(key)) + Tally(w.delivered, Live(key)) <= Tally(w.calls, Answerable(key))
  }

  lemma BoundedSend(cfg: Cfg, w: World, step: Step, key: Key)
    requires |w.registered| == |cfg.servers| && Bounded(w, key) && !step.Deliver?
    ensures Bounded(Apply(cfg, w, step), key)
  {
    hide CanCall, Rpc.AllReceivable;
    var w' := Apply(cfg, w, step);
    if |w'.net| == |w.net| + 1 {
      TallySnoc(w.net, w'.net[|w.net|], Live(key));
    }
    if |w'.calls| == |w.calls| + 1 {
      TallySnoc(w.calls, w'.calls[|w.calls|], Answerable(key));
    }
  }

  lemma BoundedDeliver(cfg: Cfg, w: World, k: nat, key: Key)
    requires |w.registered| == |cfg.servers| && Bounded(w, key) && k < |w.net|
    ensures Bounded(Apply(cfg, w, Deliver(k)), key)
  {
    hide CanCall, ServerAt, Route, Destination, FirstMatch, Tally, Implements, Rpc.AllReceivable, RemoveAt;
    var p, w' := w.net[k], Apply(cfg, w, Deliver(k));
    var rest := RemoveAt(w.net, k);
    TallyTaken(w.net, k, Live(key));
    if |w'.net| == |rest| + 1 {
      TallySnoc(rest, w'.net[|rest|], Live(key));
    }
    TallySnoc(w.delivered, p, Live(key));
  }

  /** Answers never outnumber the calls that can be answered: each request makes at most one response. */
  lemma {:induction false} AnswersBounded(cfg: Cfg, steps: seq<Step>, key: Key)
    ensures Bounded(Run(cfg, steps), key)
  {
    hide Apply, Bounded;
    if steps == [] {
      BoundedStart(cfg, key);
    } else {
      var n := |steps| - 1;
      AnswersBounded(cfg, steps[..n], key);
      var w := Run(cfg, steps[..n]);
      match steps[n]
      case Deliver(k) =>
        if k < |w.net| {
          BoundedDeliver(cfg, w, k, key);
        } else {
          NothingToDeliver(cfg, w, k);
        }
      case _ => BoundedSend(cfg, w, steps[n], key);
    }
  }

  lemma BoundedStart(cfg: Cfg, key: Key)
    ensures Bounded(InitWorld(cfg), key)
  {
  }
}
