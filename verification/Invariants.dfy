/**
What holds in every world of every run, and the proof that every step keeps it.
*/
module Invariants {
  import MsgPack
  import opened Common
  import Generators
  import Stubs
  import opened Broker
  import opened Messages
  import Rpc
  import opened Protocol

  // ---------- Knowledge that is never lost ----------

  ghost predicate Callable(cfg: Cfg, m: Msg, g: Generators.Sig)
    requires m.Request?
  {
    g in cfg.header && g.name == m.op && Stubs.Typed(g, m.args)
  }

  ghost predicate GoodCall(cfg: Cfg, m: Msg)
  {
    m.Request? && FitsFrame(m) && !IsServer(cfg, m.from) && m.from != cfg.broker && exists g :: Callable(cfg, m, g)
  }

  /** Server i answered call q with m. */
  ghost predicate AnswerFrom(cfg: Cfg, w: World, m: Msg, q: Msg, i: int)
  {
    && m.Response? && q.Request? && q in w.calls && KeyOf(q) == KeyOf(m)
    && 0 <= i < |cfg.servers| && i < |w.registered| && w.registered[i]
    && Serves(cfg.servers[i], m.op) && Rpc.AllReceivable(q.args)
    && m.result == cfg.servers[i].impl(m.op, q.args)
  }

  ghost predicate IsAnswer(cfg: Cfg, w: World, m: Msg)
  {
    exists q, i :: AnswerFrom(cfg, w, m, q, i)
  }

  ghost predicate Asked(w: World, q: Msg, ep: Endpoint, key: Key)
  {
    q.Request? && q in w.calls && KeyOf(q) == key && q.from == ep
  }

  /** Some call with this key came from ep. */
  ghost predicate AskedFrom(w: World, ep: Endpoint, key: Key)
  {
    exists q :: Asked(w, q, ep, key)
  }

  ghost predicate RoutesTo(svc: seq<ServiceReg>, op: MsgPack.bytes, ep: Endpoint)
  {
    Route(svc, op).Ok? && Route(svc, op).value.Some? && Destination(Route(svc, op).value.value) == Ok(Some(ep))
  }

  ghost predicate RecordOf(cfg: Cfg, r: ServiceReg, i: int)
  {
    0 <= i < |cfg.servers| && [] !in cfg.servers[i].table && r == RegRecord(cfg.servers[i])
  }

  /** What every packet in flight tells about the nodes. */
  ghost predicate PacketOk(cfg: Cfg, w: World, p: Packet<Msg>)
  {
    match p.body
    case Request(_, _, op, _) =>
      p.body in w.calls && (p.dest.To? ==> RoutesTo(w.broker.svc, op, p.dest.ep) && IsServer(cfg, p.dest.ep))
    case Response(_, _, _) =>
      IsAnswer(cfg, w, p.body) && (p.dest.To? ==> !IsServer(cfg, p.dest.ep) && AskedFrom(w, p.dest.ep, KeyOf(p.body)))
    case Registration(_, _) => p.dest.ToBroker? && exists s :: s in cfg.servers && p.body == RegMsg(s)
    case Ack =>
      p.dest.To? && IsServer(cfg, p.dest.ep) && RegRecord(cfg.servers[ServerAt(cfg.servers, p.dest.ep)]) in w.broker.svc
  }

  // ---------- The invariant ----------

  ghost predicate CallsOk(cfg: Cfg, w: World)
  {
    forall m | m in w.calls :: GoodCall(cfg, m)
  }

  /** The repository holds records of servers only. */
  ghost predicate SvcOk(cfg: Cfg, w: World)
  {
    forall r | r in w.broker.svc :: exists i :: RecordOf(cfg, r, i)
  }

  /** A server that believes it is registered is in the repository. */
  ghost predicate RegisteredOk(cfg: Cfg, w: World)
  {
    |w.registered| == |cfg.servers| &&
    forall i | 0 <= i < |cfg.servers| && w.registered[i] :: RegRecord(cfg.servers[i]) in w.broker.svc
  }

  ghost predicate FromCall(w: World, e: ClientReg, q: Msg)
  {
    q.Request? && q in w.calls && e == PendingOf(q)
  }

  ghost predicate EntriesOk(w: World)
  {
    && (forall e | e in w.arrivals :: exists q :: FromCall(w, e, q))
    && (forall e | e in w.broker.pending :: e in w.arrivals)
    && (forall e | e in w.answered :: e in w.arrivals)
  }

  ghost predicate NetOk(cfg: Cfg, w: World)
  {
    forall p | p in w.net :: PacketOk(cfg, w, p)
  }

  ghost predicate DeliveredOk(cfg: Cfg, w: World)
  {
    forall p | p in w.delivered :: p.body.Response? && p.dest.To? && PacketOk(cfg, w, p)
  }

  /** Pending entries are accounted for by what is on its way to an answer, or never will be answered. */
  ghost predicate ConservedFor(w: World, key: Key)
  {
    CountEntries(w.broker.pending, key) ==
      Count(w.net, Tag(RequestOut, key)) + Count(w.net, Tag(ResponseIn, key))
      + multiset(w.unrouted)[key] + multiset(w.dropped)[key]
  }

  /** Calls are accounted for: on their way to the broker, pending there, or answered. */
  ghost predicate BalancedFor(w: World, key: Key)
    requires forall m | m in w.calls :: m.Request?
  {
    multiset(CallKeys(w.calls))[key] ==
      Count(w.net, Tag(RequestIn, key)) + CountEntries(w.broker.pending, key)
      + Count(w.net, Tag(ResponseOut, key)) + Count(w.delivered, Tag(ResponseOut, key))
  }

  function ForKey(entries: seq<ClientReg>, key: Key): seq<ClientReg>
  {
    if entries == [] then [] else (if EntryKey(entries[0]) == key then [entries[0]] else []) + ForKey(entries[1..], key)
  }

  /** Equal keys are answered first in, first out. */
  ghost predicate FifoFor(w: World, key: Key)
  {
    ForKey(w.arrivals, key) == ForKey(w.answered, key) + ForKey(w.broker.pending, key)
  }

  /** s is t with some elements left out. */
  ghost predicate Subsequence<T>(s: seq<T>, t: seq<T>)
  {
    s == [] || (t != [] &&
      ((s[|s| - 1] == t[|t| - 1] && Subsequence(s[..|s| - 1], t[..|t| - 1])) || Subsequence(s, t[..|t| - 1])))
  }

  ghost predicate Accounts(w: World)
    requires forall m | m in w.calls :: m.Request?
  {
    && (forall key :: ConservedFor(w, key))
    && (forall key :: BalancedFor(w, key))
    && (forall key :: FifoFor(w, key))
    && Subsequence(w.broker.pending, w.arrivals)
  }

  ghost predicate Facts(cfg: Cfg, w: World)
  {
    CallsOk(cfg, w) && SvcOk(cfg, w) && RegisteredOk(cfg, w) && EntriesOk(w) && NetOk(cfg, w) && DeliveredOk(cfg, w)
  }

  ghost predicate Inv(cfg: Cfg, w: World)
  {
    Facts(cfg, w) && Accounts(w)
  }

  // ---------- Growth ----------

  /** Calls, repository and registrations only grow. */
  ghost predicate Grows(w: World, w': World)
  {
    && (forall m | m in w.calls :: m in w'.calls)
    && w.broker.svc <= w'.broker.svc
    && |w.registered| == |w'.registered|
    && forall i | 0 <= i < |w.registered| && w.registered[i] :: w'.registered[i]
  }

  lemma PrefixRest<T>(s: seq<T>, t: seq<T>)
    requires s <= t
    ensures t == s + t[|s|..]
    ensures forall x | x in s :: x in t
  {
  }

  /** What a packet tells stays true. */
  lemma PacketGrows(cfg: Cfg, w: World, w': World, p: Packet<Msg>)
    requires Grows(w, w') && PacketOk(cfg, w, p)
    ensures PacketOk(cfg, w', p)
  {
    PrefixRest(w.broker.svc, w'.broker.svc);
    match p.body
    case Request(_, _, op, _) =>
      if p.dest.To? {
        RouteStable(w.broker.svc, w'.broker.svc[|w.broker.svc|..], op);
      }
    case Response(_, _, _) =>
      var q, i :| AnswerFrom(cfg, w, p.body, q, i);
      assert AnswerFrom(cfg, w', p.body, q, i);
      if p.dest.To? {
        var q' :| Asked(w, q', p.dest.ep, KeyOf(p.body));
        assert Asked(w', q', p.dest.ep, KeyOf(p.body));
      }
    case Registration(_, _) =>
    case Ack =>
  }

  /** Packets left in flight stay good; packets sent must be shown to be. */
  lemma NetAfter(cfg: Cfg, w: World, w': World, left: seq<Packet<Msg>>, out: seq<Packet<Msg>>)
    requires NetOk(cfg, w) && Grows(w, w') && w'.net == left + out
    requires forall p | p in left :: p in w.net
    requires forall p | p in out :: PacketOk(cfg, w', p)
    ensures NetOk(cfg, w')
  {
    forall p | p in w'.net
      ensures PacketOk(cfg, w', p)
    {
      if p !in out {
        PacketGrows(cfg, w, w', p);
      }
    }
  }

  lemma DeliveredAfter(cfg: Cfg, w: World, w': World)
    requires DeliveredOk(cfg, w) && Grows(w, w') && w'.delivered == w.delivered
    ensures DeliveredOk(cfg, w')
  {
    forall p | p in w'.delivered
      ensures PacketOk(cfg, w', p)
    {
      PacketGrows(cfg, w, w', p);
    }
  }

  lemma EntriesAfter(w: World, w': World)
    requires EntriesOk(w) && Grows(w, w') && w'.arrivals == w.arrivals
    requires forall e | e in w'.broker.pending :: e in w.broker.pending
    requires forall e | e in w'.answered :: e in w.answered || e in w.broker.pending
    ensures EntriesOk(w')
  {
    forall e | e in w'.arrivals
      ensures exists q :: FromCall(w', e, q)
    {
      var q :| FromCall(w, e, q);
      assert FromCall(w', e, q);
    }
  }
}
