/**
Every kind of step keeps the invariant.
*/
module Steps {
  import Rpc
  import Generators
  import Formats
  import MsgPack
  import opened Common
  import opened Broker
  import opened Messages
  import opened Protocol
  import opened Invariants

  // ---------- First in, first out ----------

  lemma {:induction false} ForKeyAppend(a: seq<ClientReg>, b: seq<ClientReg>, key: Key)
    ensures ForKey(a + b, key) == ForKey(a, key) + ForKey(b, key)
  {
    if a == [] {
      assert a + b == b;
    } else {
      assert (a + b)[1..] == a[1..] + b;
      ForKeyAppend(a[1..], b, key);
    }
  }

  lemma {:induction false} ForKeyNone(a: seq<ClientReg>, key: Key)
    requires forall e | e in a :: EntryKey(e) != key
    ensures ForKey(a, key) == []
  {
    if a != [] {
      assert a[0] in a;
      ForKeyNone(a[1..], key);
    }
  }

  lemma ForKeyOne(e: ClientReg, key: Key)
    ensures ForKey([e], key) == if EntryKey(e) == key then [e] else []
  {
    assert [e][1..] == [];
  }

  /** Taking out the first match takes the oldest entry of its key and none of any other. */
  lemma ForKeyTaken(entries: seq<ClientReg>, id: int, op: MsgPack.bytes, key: Key)
    requires FirstMatch(entries, id, op) < |entries|
    ensures var k := FirstMatch(entries, id, op);
      ForKey(entries, key) == ForKey([entries[k]], key) + ForKey(RemoveAt(entries, k), key)
  {
    hide ForKey;
    var k := FirstMatch(entries, id, op);
    var front, e, back := entries[..k], entries[k], entries[k + 1..];
    assert entries == front + ([e] + back);
    ForKeyAppend(front, [e] + back, key);
    ForKeyAppend([e], back, key);
    ForKeyAppend(front, back, key);
    ForKeyOne(e, key);
    if EntryKey(e) == key {
      forall x | x in front
        ensures EntryKey(x) != key
      {
        var i :| 0 <= i < k && front[i] == x;
        assert !Matches(entries[i], id, op);
      }
      ForKeyNone(front, key);
    }
  }

  lemma {:induction false} SubsequenceRemove<T>(s: seq<T>, t: seq<T>, k: nat)
    requires Subsequence(s, t) && k < |s|
    ensures Subsequence(RemoveAt(s, k), t)
    decreases |t|
  {
    var r := RemoveAt(s, k);
    var t' := t[..|t| - 1];
    if Subsequence(s, t') {
      SubsequenceRemove(s, t', k);
    } else if k == |s| - 1 {
      assert r == s[..|s| - 1];
    } else {
      SubsequenceRemove(s[..|s| - 1], t', k);
      assert r[..|r| - 1] == RemoveAt(s[..|s| - 1], k);
    }
  }

  lemma SubsequenceAppend<T>(s: seq<T>, t: seq<T>, x: T)
    requires Subsequence(s, t)
    ensures Subsequence(s + [x], t + [x])
  {
    assert (s + [x])[..|s|] == s && (t + [x])[..|t|] == t;
  }

  // ---------- Accounts, one key at a time ----------

  ghost predicate OnlyRequests(calls: seq<Msg>)
  {
    forall m | m in calls :: m.Request?
  }

  ghost predicate AccountsFor(w: World, key: Key)
    requires OnlyRequests(w.calls)
  {
    ConservedFor(w, key) && BalancedFor(w, key) && FifoFor(w, key)
  }

  lemma AccountsSplit(w: World)
    requires OnlyRequests(w.calls)
    ensures Accounts(w) <==> (forall key :: AccountsFor(w, key)) && Subsequence(w.broker.pending, w.arrivals)
  {
    hide ConservedFor, BalancedFor, FifoFor, Subsequence;
    if forall key :: AccountsFor(w, key) {
      forall key
        ensures ConservedFor(w, key) && BalancedFor(w, key) && FifoFor(w, key)
      {
        assert AccountsFor(w, key);
      }
    }
  }

  /** What sending one packet does to the four counts of a key. */
  lemma CountsSent(net: seq<Packet<Msg>>, p: Packet<Msg>, key: Key)
    ensures forall c: Class :: Count(net + [p], Tag(c, key)) == Count(net, Tag(c, key)) + One(TagOf(p) == Tag(c, key))
  {
    hide Count;
    forall c: Class
      ensures Count(net + [p], Tag(c, key)) == Count(net, Tag(c, key)) + One(TagOf(p) == Tag(c, key))
    {
      CountSent(net, p, Tag(c, key));
    }
  }

  /** What taking one packet out of the network does to them. */
  lemma CountsTaken(net: seq<Packet<Msg>>, k: nat, key: Key)
    requires k < |net|
    ensures forall c: Class ::
      Count(net, Tag(c, key)) == Count(RemoveAt(net, k), Tag(c, key)) + One(TagOf(net[k]) == Tag(c, key))
  {
    hide Count;
    forall c: Class
      ensures Count(net, Tag(c, key)) == Count(RemoveAt(net, k), Tag(c, key)) + One(TagOf(net[k]) == Tag(c, key))
    {
      CountTaken(net, k, Tag(c, key));
    }
  }

  /** Nothing but the network and the calls is different. */
  predicate SameBooks(w: World, w': World)
  {
    && w'.broker.pending == w.broker.pending && w'.arrivals == w.arrivals && w'.answered == w.answered
    && w'.unrouted == w.unrouted && w'.dropped == w.dropped && w'.delivered == w.delivered
  }

  lemma CalledFor(w: World, w': World, m: Msg, key: Key)
    requires OnlyRequests(w.calls) && m.Request? && AccountsFor(w, key) && SameBooks(w, w')
    requires w'.net == w.net + [Packet(ToBroker, m)] && w'.calls == w.calls + [m]
    ensures AccountsFor(w', key)
  {
    hide Count, CountEntries, ForKey;
    CountsSent(w.net, Packet(ToBroker, m), key);
    assert CallKeys(w'.calls) == CallKeys(w.calls) + [KeyOf(m)];
  }

  /** Registrations and acknowledgements do not count. */
  lemma NeutralFor(w: World, w': World, key: Key)
    requires OnlyRequests(w.calls) && AccountsFor(w, key) && SameBooks(w, w') && w'.calls == w.calls
    requires forall c: Class | c != Control :: Count(w'.net, Tag(c, key)) == Count(w.net, Tag(c, key))
    ensures AccountsFor(w', key)
  {
    hide Count, CountEntries, ForKey;
  }

  lemma ForwardedFor(w: World, w': World, k: nat, to: Option<Endpoint>, key: Key)
    requires OnlyRequests(w.calls) && AccountsFor(w, key) && k < |w.net| && w.net[k].dest == ToBroker &&
      w.net[k].body.Request?
    requires var m := w.net[k].body;
      && w'.broker.pending == w.broker.pending + [PendingOf(m)] && w'.arrivals == w.arrivals + [PendingOf(m)]
      && w'.answered == w.answered && w'.dropped == w.dropped && w'.delivered == w.delivered && w'.calls == w.calls
      && w'.unrouted == (if to.Some? then w.unrouted else w.unrouted + [KeyOf(m)])
      && w'.net == if to.Some? then RemoveAt(w.net, k) + [Packet(To(to.value), m)] else RemoveAt(w.net, k)
    ensures AccountsFor(w', key)
  {
    hide Count, CountEntries, ForKey, CallKeys, RemoveAt;
    var m := w.net[k].body;
    var e := PendingOf(m);
    CountsTaken(w.net, k, key);
    CountEntryAdded(w.broker.pending, e, key);
    ForKeyAppend(w.broker.pending, [e], key);
    ForKeyAppend(w.arrivals, [e], key);
    if to.Some? {
      CountsSent(RemoveAt(w.net, k), Packet(To(to.value), m), key);
      assert ConservedFor(w', key) && BalancedFor(w', key);
    } else {
      assert ConservedFor(w', key) && BalancedFor(w', key);
    }
    assert FifoFor(w', key);
  }

  lemma MatchedFor(w: World, w': World, k: nat, j: nat, key: Key)
    requires OnlyRequests(w.calls) && AccountsFor(w, key) && k < |w.net| && w.net[k].dest == ToBroker &&
      w.net[k].body.Response?
    requires var m := w.net[k].body;
      && j < |w.broker.pending| && j == FirstMatch(w.broker.pending, m.id, m.op)
      && w'.broker.pending == RemoveAt(w.broker.pending, j) && w'.answered == w.answered + [w.broker.pending[j]]
      && w'.arrivals == w.arrivals && w'.unrouted == w.unrouted && w'.dropped == w.dropped &&
        w'.delivered == w.delivered
      && w'.calls == w.calls && |w'.net| > 0 && w'.net[|w'.net| - 1].dest.To? && w'.net[|w'.net| - 1].body == m
      && w'.net == RemoveAt(w.net, k) + [w'.net[|w'.net| - 1]]
    ensures AccountsFor(w', key)
  {
    hide Count, CountEntries, ForKey;
    var m := w.net[k].body;
    var e := w.broker.pending[j];
    CountsTaken(w.net, k, key);
    CountsSent(RemoveAt(w.net, k), w'.net[|w'.net| - 1], key);
    CountEntryRemoved(w.broker.pending, j, key);
    ForKeyTaken(w.broker.pending, m.id, m.op, key);
    ForKeyAppend(w.answered, [e], key);
  }

  lemma ServedFor(w: World, w': World, k: nat, r: Option<Msg>, key: Key)
    requires OnlyRequests(w.calls) && AccountsFor(w, key) && k < |w.net| && w.net[k].dest.To? && w.net[k].body.Request?
    requires r.Some? ==> r.value.Response? && KeyOf(r.value) == KeyOf(w.net[k].body)
    requires
      && w'.broker.pending == w.broker.pending && w'.arrivals == w.arrivals && w'.answered == w.answered
      && w'.unrouted == w.unrouted && w'.delivered == w.delivered && w'.calls == w.calls
      && w'.dropped == (if r.Some? then w.dropped else w.dropped + [KeyOf(w.net[k].body)])
      && w'.net == if r.Some? then RemoveAt(w.net, k) + [Packet(ToBroker, r.value)] else RemoveAt(w.net, k)
    ensures AccountsFor(w', key)
  {
    hide Count, CountEntries, ForKey;
    CountsTaken(w.net, k, key);
    if r.Some? {
      CountsSent(RemoveAt(w.net, k), Packet(ToBroker, r.value), key);
    }
  }

  lemma DeliveredFor(w: World, w': World, k: nat, key: Key)
    requires OnlyRequests(w.calls) && AccountsFor(w, key) && k < |w.net| && w.net[k].dest.To? && w.net[k].body.Response?
    requires w' == w.(net := RemoveAt(w.net, k), delivered := w.delivered + [w.net[k]])
    ensures AccountsFor(w', key)
  {
    hide Count, CountEntries, ForKey;
    CountsTaken(w.net, k, key);
    CountsSent(w.delivered, w.net[k], key);
  }

  // ---------- Sending ----------

  lemma CallFacts(cfg: Cfg, w: World, client: Endpoint, sig: Generators.Sig, id: int, args: seq<Formats.Arg>)
    requires ValidCfg(cfg) && Inv(cfg, w) && CanCall(cfg, client, sig, id, args)
    ensures Facts(cfg, Apply(cfg, w, Call(client, sig, id, args)))
  {
    hide FitsFrame, Route, IsAnswer, AskedFrom, Accounts, ValidCfg;
    var m := Request(id, client, sig.name, args);
    var w' := Apply(cfg, w, Call(client, sig, id, args));
    assert Callable(cfg, m, sig);
    NetAfter(cfg, w, w', w.net, [Packet(ToBroker, m)]);
    DeliveredAfter(cfg, w, w');
    EntriesAfter(w, w');
  }

  lemma CallKept(cfg: Cfg, w: World, client: Endpoint, sig: Generators.Sig, id: int, args: seq<Formats.Arg>)
    requires ValidCfg(cfg) && Inv(cfg, w) && CanCall(cfg, client, sig, id, args)
    ensures Inv(cfg, Apply(cfg, w, Call(client, sig, id, args)))
  {
    CallFacts(cfg, w, client, sig, id, args);
    CallsAreRequests(cfg, w);
    hide FitsFrame, Facts, Accounts, AccountsFor, ValidCfg;
    var m := Request(id, client, sig.name, args);
    var w' := Apply(cfg, w, Call(client, sig, id, args));
    AccountsSplit(w);
    forall key
      ensures AccountsFor(w', key)
    {
      CalledFor(w, w', m, key);
    }
    AccountsSplit(w');
  }

  lemma CallsAreRequests(cfg: Cfg, w: World)
    requires CallsOk(cfg, w)
    ensures OnlyRequests(w.calls)
  {
  }

  lemma FactsCalls(cfg: Cfg, w: World)
    requires Facts(cfg, w)
    ensures OnlyRequests(w.calls)
  {
  }

  lemma RegisterKept(cfg: Cfg, w: World, i: nat)
    requires ValidCfg(cfg) && Inv(cfg, w) && i < |cfg.servers|
    ensures Inv(cfg, Apply(cfg, w, Register(i)))
  {
    hide FitsFrame, Facts, Accounts, AccountsFor, ValidCfg, Count, CanCall;
    if i in w.dead {
      return;
    }
    RegisterFacts(cfg, w, i);
    FactsCalls(cfg, w);
    var w' := Apply(cfg, w, Register(i));
    AccountsSplit(w);
    forall key
      ensures AccountsFor(w', key)
    {
      CountsSent(w.net, Packet(ToBroker, RegMsg(cfg.servers[i])), key);
      NeutralFor(w, w', key);
    }
    AccountsSplit(w');
  }

  lemma RegisterFacts(cfg: Cfg, w: World, i: nat)
    requires Inv(cfg, w) && i < |cfg.servers| && i !in w.dead
    ensures Facts(cfg, Apply(cfg, w, Register(i)))
  {
    hide FitsFrame, Route, IsAnswer, AskedFrom, Accounts, CanCall;
    var w' := Apply(cfg, w, Register(i));
    assert cfg.servers[i] in cfg.servers;
    NetAfter(cfg, w, w', w.net, [Packet(ToBroker, RegMsg(cfg.servers[i]))]);
    DeliveredAfter(cfg, w, w');
    EntriesAfter(w, w');
  }

  // ---------- At the broker ----------

  lemma RecordsComplete(cfg: Cfg, w: World)
    requires SvcOk(cfg, w)
    ensures forall r | r in w.broker.svc :: Complete(r)
  {
    forall r | r in w.broker.svc
      ensures Complete(r)
    {
      var i :| RecordOf(cfg, r, i);
      RecordWritten(cfg.servers[i]);
    }
  }

  /** Requests are routed to servers, and the broker never trips over a half-written record. */
  lemma RouteFound(cfg: Cfg, w: World, op: MsgPack.bytes)
    requires SvcOk(cfg, w)
    ensures Route(w.broker.svc, op).Ok?
    ensures Route(w.broker.svc, op).value.Some? ==>
      var to := Destination(Route(w.broker.svc, op).value.value);
      to.Ok? && to.value.Some? && RoutesTo(w.broker.svc, op, to.value.value) && IsServer(cfg, to.value.value)
  {
    RecordsComplete(cfg, w);
    RouteMeaning(w.broker.svc, op);
    if Route(w.broker.svc, op).value.Some? {
      var r := Route(w.broker.svc, op).value.value;
      var j :| FirstListing(w.broker.svc, op, j) && w.broker.svc[j] == r;
      assert r in w.broker.svc;
      var i :| RecordOf(cfg, r, i);
      assert Destination(r) == Ok(Some(cfg.servers[i].ep));
    }
  }

  lemma RequestAtBrokerFacts(cfg: Cfg, w: World, k: nat)
    requires !w.crashed
    requires ValidCfg(cfg) && Inv(cfg, w) && k < |w.net| && w.net[k].dest == ToBroker && w.net[k].body.Request?
    ensures Facts(cfg, Apply(cfg, w, Deliver(k))) && Apply(cfg, w, Deliver(k)).crashed == w.crashed
  {
    hide Route, IsAnswer, AskedFrom, FitsFrame, RoutesTo, ValidCfg, CanCall, RegRecord, Callable, Accounts;
    var m := w.net[k].body;
    var w' := Apply(cfg, w, Deliver(k));
    Removed(w.net, k);
    RouteFound(cfg, w, m.op);
    assert w.net[k] in w.net;
    assert w'.broker.svc == w.broker.svc && w'.calls == w.calls;
    var out := if Route(w.broker.svc, m.op).value.Some?
               then [Packet(To(Destination(Route(w.broker.svc, m.op).value.value).value.value), m)] else [];
    assert w'.net == RemoveAt(w.net, k) + out;
    NetAfter(cfg, w, w', RemoveAt(w.net, k), out);
    DeliveredAfter(cfg, w, w');
    forall e | e in w'.arrivals
      ensures exists q :: FromCall(w', e, q)
    {
      if e in w.arrivals {
        var q :| FromCall(w, e, q);
        assert FromCall(w', e, q);
      } else {
        assert FromCall(w', e, m);
      }
    }
  }

  lemma RequestAtBrokerAccounts(cfg: Cfg, w: World, k: nat)
    requires !w.crashed
    requires ValidCfg(cfg) && Inv(cfg, w) && k < |w.net| && w.net[k].dest == ToBroker && w.net[k].body.Request?
    ensures Apply(cfg, w, Deliver(k)).calls == w.calls && OnlyRequests(w.calls)
    ensures Accounts(Apply(cfg, w, Deliver(k)))
  {
    var m := w.net[k].body;
    CallsAreRequests(cfg, w);
    RouteFound(cfg, w, m.op);
    hide Route, Destination, Facts, Accounts, AccountsFor, ValidCfg, CanCall, Subsequence, RoutesTo;
    var w' := Apply(cfg, w, Deliver(k));
    AccountsSplit(w);
    var route := Route(w.broker.svc, m.op).value;
    var to := if route.Some? then Destination(route.value).value else None;
    forall key
      ensures AccountsFor(w', key)
    {
      ForwardedFor(w, w', k, to, key);
    }
    SubsequenceAppend(w.broker.pending, w.arrivals, PendingOf(m));
    AccountsSplit(w');
  }

  /** A response at the broker finds the entry it answers. */
  lemma ResponseFinds(cfg: Cfg, w: World, k: nat)
    requires Inv(cfg, w) && k < |w.net| && w.net[k].dest == ToBroker && w.net[k].body.Response?
    ensures FirstMatch(w.broker.pending, w.net[k].body.id, w.net[k].body.op) < |w.broker.pending|
  {
    var m := w.net[k].body;
    CountPositive(w.net, k);
    assert ConservedFor(w, KeyOf(m));
    CountFound(w.broker.pending, m.id, m.op);
  }

  lemma ResponseAtBrokerFacts(cfg: Cfg, w: World, k: nat)
    requires !w.crashed
    requires ValidCfg(cfg) && Inv(cfg, w) && k < |w.net| && w.net[k].dest == ToBroker && w.net[k].body.Response?
    ensures Facts(cfg, Apply(cfg, w, Deliver(k))) && Apply(cfg, w, Deliver(k)).crashed == w.crashed
  {
    hide Route, IsAnswer, FitsFrame, RoutesTo, ConservedFor, BalancedFor, FifoFor, ValidCfg, CanCall, RegRecord,
      Callable;
    var m := w.net[k].body;
    var w' := Apply(cfg, w, Deliver(k));
    ResponseFinds(cfg, w, k);
    var j := FirstMatch(w.broker.pending, m.id, m.op);
    var e := w.broker.pending[j];
    Removed(w.net, k);
    Removed(w.broker.pending, j);
    assert w.net[k] in w.net && e in w.broker.pending && e in w.arrivals;
    var q :| FromCall(w, e, q);
    var p := Packet(To(Endpoint(e.address, e.port)), m);
    assert q.from == p.dest.ep && GoodCall(cfg, q);
    assert Asked(w', q, p.dest.ep, KeyOf(m));
    PacketGrows(cfg, w, w', w.net[k]);
    NetAfter(cfg, w, w', RemoveAt(w.net, k), [p]);
    DeliveredAfter(cfg, w, w');
    EntriesAfter(w, w');
  }

  lemma ResponseAtBrokerAccounts(cfg: Cfg, w: World, k: nat)
    requires !w.crashed
    requires Inv(cfg, w) && k < |w.net| && w.net[k].dest == ToBroker && w.net[k].body.Response?
    ensures Apply(cfg, w, Deliver(k)).calls == w.calls && OnlyRequests(w.calls)
    ensures Accounts(Apply(cfg, w, Deliver(k)))
  {
    var m := w.net[k].body;
    CallsAreRequests(cfg, w);
    ResponseFinds(cfg, w, k);
    hide Facts, Accounts, AccountsFor, CanCall, Subsequence, FirstMatch;
    var w' := Apply(cfg, w, Deliver(k));
    AccountsSplit(w);
    var j := FirstMatch(w.broker.pending, m.id, m.op);
    forall key
      ensures AccountsFor(w', key)
    {
      MatchedFor(w, w', k, j, key);
    }
    SubsequenceRemove(w.broker.pending, w.arrivals, j);
    AccountsSplit(w');
  }

  /** A registration in flight comes from a server. */
  lemma RegistrationSource(cfg: Cfg, w: World, k: nat) returns (i: nat)
    requires NetOk(cfg, w) && k < |w.net| && w.net[k].body.Registration?
    ensures i < |cfg.servers| && w.net[k].body == RegMsg(cfg.servers[i])
  {
    assert w.net[k] in w.net;
    var s :| s in cfg.servers && w.net[k].body == RegMsg(s);
    i :| 0 <= i < |cfg.servers| && cfg.servers[i] == s;
  }

  lemma EndpointsDiffer(cfg: Cfg, i: nat)
    requires ValidCfg(cfg) && i < |cfg.servers|
    ensures ServerAt(cfg.servers, cfg.servers[i].ep) == i
  {
  }

  /** What a registration does to the broker: a record and an acknowledgement, or its end. */
  lemma RegistrationTaken(cfg: Cfg, w: World, k: nat, i: nat)
    requires |w.registered| == |cfg.servers| && !w.crashed && k < |w.net| && w.net[k].dest == ToBroker
    requires i < |cfg.servers| && w.net[k].body == RegMsg(cfg.servers[i])
    ensures var s, w' := cfg.servers[i], Apply(cfg, w, Deliver(k));
      if [] in s.table then w' == w.(net := RemoveAt(w.net, k), crashed := true)
      else w' == w.(net := RemoveAt(w.net, k) + [Packet(To(s.ep), Ack)],
                    broker := w.broker.(svc := w.broker.svc + [RegRecord(s)]))
  {
    hide CanCall, ServerAt, RemoveAt;
    ReversedTwice(cfg.servers[i].table);
  }

  lemma RegistrationAtBrokerFacts(cfg: Cfg, w: World, k: nat)
    requires !w.crashed
    requires ValidCfg(cfg) && Inv(cfg, w) && k < |w.net| && w.net[k].dest == ToBroker && w.net[k].body.Registration?
    ensures Facts(cfg, Apply(cfg, w, Deliver(k)))
  {
    hide Route, IsAnswer, AskedFrom, FitsFrame, RoutesTo, ValidCfg, Accounts, Apply, RegRecord, GoodCall, RegMsg,
      ServerAt;
    var i := RegistrationSource(cfg, w, k);
    var s := cfg.servers[i];
    EndpointsDiffer(cfg, i);
    RegistrationTaken(cfg, w, k, i);
    var w' := Apply(cfg, w, Deliver(k));
    Removed(w.net, k);
    if [] in s.table {
      NetAfter(cfg, w, w', RemoveAt(w.net, k), []);
    } else {
      assert RecordOf(cfg, RegRecord(s), i) && RegRecord(s) in w'.broker.svc;
      NetAfter(cfg, w, w', RemoveAt(w.net, k), [Packet(To(s.ep), Ack)]);
    }
    DeliveredAfter(cfg, w, w');
    EntriesAfter(w, w');
  }

  lemma RegistrationAtBrokerAccounts(cfg: Cfg, w: World, k: nat)
    requires !w.crashed
    requires Inv(cfg, w) && k < |w.net| && w.net[k].dest == ToBroker && w.net[k].body.Registration?
    ensures Apply(cfg, w, Deliver(k)).calls == w.calls && OnlyRequests(w.calls)
    ensures Accounts(Apply(cfg, w, Deliver(k)))
  {
    CallsAreRequests(cfg, w);
    var i := RegistrationSource(cfg, w, k);
    RegistrationTaken(cfg, w, k, i);
    hide Facts, Accounts, AccountsFor, CanCall, Subsequence, Count, Apply, RegRecord;
    var w' := Apply(cfg, w, Deliver(k));
    AccountsSplit(w);
    forall key
      ensures AccountsFor(w', key)
    {
      CountsTaken(w.net, k, key);
      CountsSent(RemoveAt(w.net, k), Packet(To(cfg.servers[i].ep), Ack), key);
      NeutralFor(w, w', key);
    }
    AccountsSplit(w');
  }

  // ---------- At a server ----------

  /** An acknowledgement is taken off the network and may set one flag. */
  lemma AckLands(cfg: Cfg, w: World, k: nat)
    requires Inv(cfg, w) && k < |w.net| && w.net[k].body.Ack?
    ensures var w' := Apply(cfg, w, Deliver(k));
      && w'.net == RemoveAt(w.net, k) && SameBooks(w, w') && w'.calls == w.calls && w'.broker == w.broker
      && w'.crashed == w.crashed
      && Grows(w, w')
      && forall i | 0 <= i < |cfg.servers| && w'.registered[i] :: RegRecord(cfg.servers[i]) in w.broker.svc
  {
    hide Accounts, CanCall, GoodCall, Route, RegRecord;
    assert w.net[k] in w.net && PacketOk(cfg, w, w.net[k]);
  }

  lemma AckAtServerFacts(cfg: Cfg, w: World, k: nat)
    requires Inv(cfg, w) && k < |w.net| && w.net[k].body.Ack?
    ensures Facts(cfg, Apply(cfg, w, Deliver(k))) && Apply(cfg, w, Deliver(k)).crashed == w.crashed
  {
    AckLands(cfg, w, k);
    hide Route, PacketOk, FitsFrame, Accounts, Apply;
    var w' := Apply(cfg, w, Deliver(k));
    Removed(w.net, k);
    NetAfter(cfg, w, w', RemoveAt(w.net, k), []);
    DeliveredAfter(cfg, w, w');
    EntriesAfter(w, w');
  }

  lemma AckAtServerAccounts(cfg: Cfg, w: World, k: nat)
    requires Inv(cfg, w) && k < |w.net| && w.net[k].body.Ack?
    ensures Apply(cfg, w, Deliver(k)).calls == w.calls && OnlyRequests(w.calls)
    ensures Accounts(Apply(cfg, w, Deliver(k)))
  {
    CallsAreRequests(cfg, w);
    AckLands(cfg, w, k);
    hide Facts, Accounts, AccountsFor, Apply, Subsequence, Count, Grows, RegRecord;
    var w' := Apply(cfg, w, Deliver(k));
    AccountsSplit(w);
    forall key
      ensures AccountsFor(w', key)
    {
      CountsTaken(w.net, k, key);
      NeutralFor(w, w', key);
    }
    AccountsSplit(w');
  }

  /** Server i answers this request. */
  predicate Answering(cfg: Cfg, w: World, i: nat, q: Msg)
    requires i < |cfg.servers| == |w.registered| && q.Request?
  {
    i !in w.dead && w.registered[i] && Implements(cfg.servers[i].iface, q.op) && Rpc.AllReceivable(q.args)
  }

  lemma RecordWritten(s: ServerCfg)
    requires [] !in s.table
    ensures RegRecord(s) == WrittenRecord(s.ep, Reversed(s.table)) && Complete(RegRecord(s))
  {
    ReversedTwice(s.table);
  }

  lemma ListedInTable(s: ServerCfg, op: MsgPack.bytes)
    requires [] !in s.table && Lists(RegRecord(s), op)
    ensures op in s.table
  {
    RecordWritten(s);
    var k :| 0 <= k < |s.table| && ServiceAts(Reversed(s.table))[k] == At(op);
    assert s.table[|s.table| - 1 - k] == op;
  }

  /** Requests are routed to servers that advertise their operation, in tables without empty names. */
  lemma Advertised(cfg: Cfg, w: World, op: MsgPack.bytes, i: nat)
    requires ValidCfg(cfg) && SvcOk(cfg, w) && i < |cfg.servers| && RoutesTo(w.broker.svc, op, cfg.servers[i].ep)
    ensures op in cfg.servers[i].table && [] !in cfg.servers[i].table
  {
    hide GoodServer, Route;
    RecordsComplete(cfg, w);
    RouteMeaning(w.broker.svc, op);
    var r := Route(w.broker.svc, op).value.value;
    var j :| FirstListing(w.broker.svc, op, j) && w.broker.svc[j] == r;
    assert r in w.broker.svc;
    var i' :| RecordOf(cfg, r, i');
    RecordEndpoint(cfg, i');
    assert cfg.servers[i'].ep == cfg.servers[i].ep;
    ListedInTable(cfg.servers[i'], op);
  }

  lemma RecordEndpoint(cfg: Cfg, i: nat)
    requires i < |cfg.servers|
    ensures Destination(RegRecord(cfg.servers[i])) == Ok(Some(cfg.servers[i].ep))
  {
  }

  lemma RequestAtServerFacts(cfg: Cfg, w: World, k: nat)
    requires ValidCfg(cfg) && Inv(cfg, w) && k < |w.net| && w.net[k].dest.To? && w.net[k].body.Request?
    ensures Facts(cfg, Apply(cfg, w, Deliver(k))) && Apply(cfg, w, Deliver(k)).crashed == w.crashed
  {
    hide Route, AskedFrom, FitsFrame, RoutesTo, GoodServer, Accounts;
    var m := w.net[k].body;
    var w' := Apply(cfg, w, Deliver(k));
    assert w.net[k] in w.net;
    var i := ServerAt(cfg.servers, w.net[k].dest.ep);
    Removed(w.net, k);
    var answers := Answering(cfg, w, i, m);
    var r := Response(m.id, m.op, cfg.servers[i].impl(m.op, m.args));
    var out := if answers then [Packet(ToBroker, r)] else [];
    assert w'.net == RemoveAt(w.net, k) + out;
    if answers {
      Advertised(cfg, w, m.op, i);
      assert AnswerFrom(cfg, w', r, m, i);
    }
    NetAfter(cfg, w, w', RemoveAt(w.net, k), out);
    DeliveredAfter(cfg, w, w');
    EntriesAfter(w, w');
  }

  lemma RequestAtServerAccounts(cfg: Cfg, w: World, k: nat)
    requires Inv(cfg, w) && k < |w.net| && w.net[k].dest.To? && w.net[k].body.Request?
    ensures Apply(cfg, w, Deliver(k)).calls == w.calls && OnlyRequests(w.calls)
    ensures Accounts(Apply(cfg, w, Deliver(k)))
  {
    var m := w.net[k].body;
    CallsAreRequests(cfg, w);
    ForwardedToServer(cfg, w, k);
    hide Facts, Accounts, AccountsFor, CanCall, Subsequence, Implements, AtBroker, RemoveAt, Rpc.AllReceivable,
      ServerAt;
    var w' := Apply(cfg, w, Deliver(k));
    AccountsSplit(w);
    var i := ServerAt(cfg.servers, w.net[k].dest.ep);
    var r := if Answering(cfg, w, i, m) then Some(Response(m.id, m.op, cfg.servers[i].impl(m.op, m.args))) else None;
    forall key
      ensures AccountsFor(w', key)
    {
      ServedFor(w, w', k, r, key);
    }
    AccountsSplit(w');
  }

  lemma ForwardedToServer(cfg: Cfg, w: World, k: nat)
    requires NetOk(cfg, w) && k < |w.net| && w.net[k].dest.To? && w.net[k].body.Request?
    ensures IsServer(cfg, w.net[k].dest.ep)
  {
    assert w.net[k] in w.net;
  }

  // ---------- At a client ----------

  lemma ResponseAtClientFacts(cfg: Cfg, w: World, k: nat)
    requires Inv(cfg, w) && k < |w.net| && w.net[k].dest.To? && w.net[k].body.Response?
    ensures Facts(cfg, Apply(cfg, w, Deliver(k))) && Apply(cfg, w, Deliver(k)).crashed == w.crashed
    ensures Apply(cfg, w, Deliver(k)) == w.(net := RemoveAt(w.net, k), delivered := w.delivered + [w.net[k]])
  {
    hide Route, FitsFrame, RoutesTo, GoodServer, IsAnswer, AskedFrom, Accounts, CanCall;
    var w' := Apply(cfg, w, Deliver(k));
    assert w.net[k] in w.net;
    Removed(w.net, k);
    NetAfter(cfg, w, w', RemoveAt(w.net, k), []);
    EntriesAfter(w, w');
    forall d | d in w'.delivered
      ensures d.body.Response? && d.dest.To? && PacketOk(cfg, w', d)
    {
      PacketGrows(cfg, w, w', d);
    }
  }

  lemma ResponseAtClientAccounts(cfg: Cfg, w: World, k: nat)
    requires Inv(cfg, w) && k < |w.net| && w.net[k].dest.To? && w.net[k].body.Response?
    ensures Apply(cfg, w, Deliver(k)).calls == w.calls && OnlyRequests(w.calls)
    ensures Accounts(Apply(cfg, w, Deliver(k)))
  {
    CallsAreRequests(cfg, w);
    ResponseAtClientFacts(cfg, w, k);
    hide Facts, Accounts, AccountsFor, Apply, Subsequence;
    var w' := Apply(cfg, w, Deliver(k));
    AccountsSplit(w);
    forall key
      ensures AccountsFor(w', key)
    {
      DeliveredFor(w, w', k, key);
    }
    AccountsSplit(w');
  }

  // ---------- Every step ----------

  lemma NothingReachesBroker(cfg: Cfg, w: World, k: nat)
    requires |w.registered| == |cfg.servers| && w.crashed && k < |w.net| && w.net[k].dest.ToBroker?
    ensures Apply(cfg, w, Deliver(k)) == w
  {
    hide CanCall;
  }

  lemma DeliverKept(cfg: Cfg, w: World, k: nat)
    requires ValidCfg(cfg) && Inv(cfg, w) && k < |w.net|
    ensures Inv(cfg, Apply(cfg, w, Deliver(k)))
  {
    assert w.net[k] in w.net && PacketOk(cfg, w, w.net[k]);
    if w.crashed && w.net[k].dest.ToBroker? {
      NothingReachesBroker(cfg, w, k);
      return;
    }
    hide Facts, Accounts, ValidCfg, Apply;
    match (w.net[k].dest, w.net[k].body)
    case (ToBroker, Request(_, _, _, _)) =>
      RequestAtBrokerFacts(cfg, w, k);
      RequestAtBrokerAccounts(cfg, w, k);
    case (ToBroker, Response(_, _, _)) =>
      ResponseAtBrokerFacts(cfg, w, k);
      ResponseAtBrokerAccounts(cfg, w, k);
    case (ToBroker, Registration(_, _)) =>
      RegistrationAtBrokerFacts(cfg, w, k);
      RegistrationAtBrokerAccounts(cfg, w, k);
    case (To(_), Request(_, _, _, _)) =>
      RequestAtServerFacts(cfg, w, k);
      RequestAtServerAccounts(cfg, w, k);
    case (To(_), Response(_, _, _)) =>
      ResponseAtClientFacts(cfg, w, k);
      ResponseAtClientAccounts(cfg, w, k);
    case (_, Ack) =>
      AckAtServerFacts(cfg, w, k);
      AckAtServerAccounts(cfg, w, k);
  }

  lemma StepKept(cfg: Cfg, w: World, step: Step)
    requires ValidCfg(cfg) && Inv(cfg, w)
    ensures |w.registered| == |cfg.servers| && Inv(cfg, Apply(cfg, w, step))
  {
    hide Accounts, ValidCfg, CanCall, CallsOk, SvcOk, EntriesOk, NetOk, DeliveredOk;
    match step
    case Call(client, sig, id, args) =>
      if CanCall(cfg, client, sig, id, args) {
        CallKept(cfg, w, client, sig, id, args);
      }
    case Register(i) =>
      if i < |cfg.servers| {
        RegisterKept(cfg, w, i);
      }
    case Deliver(k) =>
      if k < |w.net| {
        DeliverKept(cfg, w, k);
      }
  }

  lemma InitInv(cfg: Cfg)
    ensures Inv(cfg, InitWorld(cfg))
  {
    var w := InitWorld(cfg);
    forall key
      ensures ConservedFor(w, key) && BalancedFor(w, key) && FifoFor(w, key)
    {
    }
  }

  /** The invariant holds in every world of every run. */
  lemma {:induction false} RunInv(cfg: Cfg, steps: seq<Step>)
    requires ValidCfg(cfg)
    ensures Inv(cfg, Run(cfg, steps))
  {
    hide Inv, ValidCfg;
    if steps == [] {
      InitInv(cfg);
    } else {
      RunInv(cfg, steps[..|steps| - 1]);
      StepKept(cfg, Run(cfg, steps[..|steps| - 1]), steps[|steps| - 1]);
    }
  }
}
