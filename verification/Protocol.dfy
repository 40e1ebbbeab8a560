/**
The whole system as a step machine over messages: one broker, any number of servers, any number of
clients. Every packet travels on a connection of its own, so any packet in flight may be the next
to arrive. A step that is not possible leaves the world as it is; a run is any sequence of steps.
*/
module Protocol {
  import Server
  import Formats
  import opened MsgPack
  import opened Common
  import opened Generators
  import Stubs
  import opened Broker
  import opened Messages
  import Registrations
  import Rpc

  // ---------- Configurations ----------

  /** A server: where it listens, the operations it advertises, those it implements, and how. */
  datatype ServerCfg = ServerCfg(ep: Endpoint, table: seq<bytes>, iface: seq<Sig>, impl: Server.Impl)

  /** header is the server_interface.h that client and server stubs are generated from. */
  datatype Cfg = Cfg(broker: Address, header: seq<Sig>, servers: seq<ServerCfg>)

  function RegMsg(s: ServerCfg): Msg
  {
    Registration(s.ep, Reversed(s.table))
  }

  function RegRecord(s: ServerCfg): ServiceReg
  {
    RegOf(s.ep, Reversed(s.table))
  }

  ghost predicate GoodServer(header: seq<Sig>, s: ServerCfg)
  {
    && Registrations.GoodTable(s.ep, s.table) && FitsFrame(RegMsg(s))
    && Rpc.GoodIface(s.iface) && (forall g | g in s.iface :: g in header)
    && (forall g, args | g in s.iface && Stubs.Typed(g, args) :: Stubs.OfType(s.impl(g.name, args), g.ret))
    && forall g, q: Msg | g in s.iface && q.Request? && FitsFrame(q) && q.op == g.name && Stubs.Typed(g, q.args) ::
         FitsFrame(Response(q.id, g.name, s.impl(g.name, q.args)))
  }

  ghost predicate ValidCfg(cfg: Cfg)
  {
    && Rpc.GoodIface(cfg.header)
    && (forall s | s in cfg.servers :: GoodServer(cfg.header, s) && s.ep != cfg.broker)
    && forall i, j | 0 <= i < j < |cfg.servers| :: cfg.servers[i].ep != cfg.servers[j].ep
  }

  /** Which server listens at ep; |servers| when none does. */
  function ServerAt(servers: seq<ServerCfg>, ep: Endpoint): (i: nat)
    ensures i <= |servers|
    ensures i < |servers| ==> servers[i].ep == ep
    ensures i == |servers| ==> forall j | 0 <= j < |servers| :: servers[j].ep != ep
  {
    if servers == [] || servers[0].ep == ep then 0 else 1 + ServerAt(servers[1..], ep)
  }

  predicate IsServer(cfg: Cfg, ep: Endpoint)
  {
    ServerAt(cfg.servers, ep) < |cfg.servers|
  }

  predicate Implements(iface: seq<Sig>, op: bytes)
  {
    exists g :: g in iface && g.name == op
  }

  // ---------- Worlds ----------

  /** A server that can answer the operation, and that requests for it can be routed to. */
  predicate Serves(s: ServerCfg, op: bytes)
  {
    Implements(s.iface, op) && op in s.table && [] !in s.table
  }

  datatype Dest = ToBroker | To(ep: Endpoint)

  datatype Packet<P> = Packet(dest: Dest, body: P)

  datatype Key = Key(id: int, op: bytes)

  /**
  The state of the nodes and the network, and a history: calls made, pending entries in order of
  arrival and in order of being answered, requests without a server, requests a server dropped,
  and packets that reached clients. `dead` are the servers that have crashed; `crashed` says that the
  broker has run into undefined behaviour, from which on nothing is delivered to it.
  */
  datatype World = World(
    broker: BrokerState,
    registered: seq<bool>,
    dead: set<nat>,
    net: seq<Packet<Msg>>,
    calls: seq<Msg>,
    arrivals: seq<ClientReg>,
    answered: seq<ClientReg>,
    unrouted: seq<Key>,
    dropped: seq<Key>,
    delivered: seq<Packet<Msg>>,
    crashed: bool)

  function InitWorld(cfg: Cfg): World
  {
    World(BrokerState([], []), seq(|cfg.servers|, _ => false), {}, [], [], [], [], [], [], [], false)
  }

  function KeyOf(m: Msg): Key
    requires m.Request? || m.Response?
  {
    Key(m.id, m.op)
  }

  // ---------- Steps ----------

  datatype Step =
    | Call(client: Endpoint, sig: Sig, id: int, args: seq<Formats.Arg>)
    | Register(i: nat)
    | Deliver(k: nat)

  /** A client function of the header, called with arguments of its types. */
  ghost predicate CanCall(cfg: Cfg, client: Endpoint, sig: Sig, id: int, args: seq<Formats.Arg>)
  {
    && sig in cfg.header && Stubs.Typed(sig, args)
    && !IsServer(cfg, client) && client != cfg.broker && FitsFrame(Request(id, client, sig.name, args))
  }

  function AtBroker(w: World, m: Msg): World
  {
    match m
    case Request(_, _, op, _) =>
      var w' := w.(broker := w.broker.(pending := w.broker.pending + [PendingOf(m)]),
        arrivals := w.arrivals + [PendingOf(m)]);
      (match Route(w.broker.svc, op)
       case Ok(Some(reg)) =>
         (match Destination(reg)
          case Ok(Some(to)) => w'.(net := w.net + [Packet(To(to), m)])
          case _ => w'.(crashed := true))
       case Ok(None) => w'.(unrouted := w.unrouted + [KeyOf(m)])
       case Abort => w'.(crashed := true))
    case Response(id, op, _) =>
      var k := FirstMatch(w.broker.pending, id, op);
      if k == |w.broker.pending| then w.(crashed := true) else
      var e := w.broker.pending[k];
      w.(broker := w.broker.(pending := RemoveAt(w.broker.pending, k)),
         answered := w.answered + [e],
         net := w.net + [Packet(To(Endpoint(e.address, e.port)), m)])
    case Registration(from, services) =>
      if [] in services then w.(crashed := true) else
      w.(broker := w.broker.(svc := w.broker.svc + [RegOf(from, services)]), net := w.net + [Packet(To(from), Ack)])
    case Ack => w
  }

  /** Nobody reads what is sent to a dead server; a negative argument kills the one that serves it. */
  function AtServer(cfg: Cfg, w: World, i: nat, m: Msg): World
    requires i < |cfg.servers| == |w.registered|
  {
    match m
    case Ack => if i in w.dead then w else w.(registered := w.registered[i := true])
    case Request(id, _, op, args) =>
      if i in w.dead || !w.registered[i] || !Implements(cfg.servers[i].iface, op) then
        w.(dropped := w.dropped + [KeyOf(m)])
      else if Rpc.AllReceivable(args) then
        w.(net := w.net + [Packet(ToBroker, Response(id, op, cfg.servers[i].impl(op, args)))])
      else w.(dropped := w.dropped + [KeyOf(m)], dead := w.dead + {i})
    case _ => w
  }

  ghost function Apply(cfg: Cfg, w: World, step: Step): (w': World)
    requires |w.registered| == |cfg.servers|
    ensures |w'.registered| == |cfg.servers|
  {
    match step
    case Call(client, sig, id, args) =>
      if !CanCall(cfg, client, sig, id, args) then w else
      var m := Request(id, client, sig.name, args);
      w.(net := w.net + [Packet(ToBroker, m)], calls := w.calls + [m])
    case Register(i) =>
      if i >= |cfg.servers| || i in w.dead then w else
      w.(net := w.net + [Packet(ToBroker, RegMsg(cfg.servers[i]))])
    case Deliver(k) =>
      if k >= |w.net| || (w.crashed && w.net[k].dest.ToBroker?) then w else
      var p, w' := w.net[k], w.(net := RemoveAt(w.net, k));
      match p.dest
      case ToBroker => AtBroker(w', p.body)
      case To(ep) =>
        if IsServer(cfg, ep) then AtServer(cfg, w', ServerAt(cfg.servers, ep), p.body)
        else w'.(delivered := w.delivered + [p])
  }

  /** The world after a run. */
  ghost function Run(cfg: Cfg, steps: seq<Step>): (w: World)
    ensures |w.registered| == |cfg.servers|
  {
    if steps == [] then InitWorld(cfg) else Apply(cfg, Run(cfg, steps[..|steps| - 1]), steps[|steps| - 1])
  }

  // ---------- Counting ----------

  datatype Class = RequestIn | RequestOut | ResponseIn | ResponseOut | Control

  datatype Tag = Tag(class_: Class, key: Key)

  function TagOf(p: Packet<Msg>): Tag
  {
    match p.body
    case Request(_, _, _, _) => Tag(if p.dest.ToBroker? then RequestIn else RequestOut, KeyOf(p.body))
    case Response(_, _, _) => Tag(if p.dest.ToBroker? then ResponseIn else ResponseOut, KeyOf(p.body))
    case _ => Tag(Control, Key(0, []))
  }

  function Tags(net: seq<Packet<Msg>>): (tags: seq<Tag>)
    ensures |tags| == |net| && forall i | 0 <= i < |net| :: tags[i] == TagOf(net[i])
  {
    seq(|net|, i requires 0 <= i < |net| => TagOf(net[i]))
  }

  /** How many packets of net have this tag. */
  function Count(net: seq<Packet<Msg>>, t: Tag): nat
  {
    multiset(Tags(net))[t]
  }

  function EntryKey(e: ClientReg): Key
  {
    Key(e.message_id, e.operation)
  }

  function EntryKeys(entries: seq<ClientReg>): (keys: seq<Key>)
    ensures |keys| == |entries| && forall i | 0 <= i < |entries| :: keys[i] == EntryKey(entries[i])
  {
    seq(|entries|, i requires 0 <= i < |entries| => EntryKey(entries[i]))
  }

  function CountEntries(entries: seq<ClientReg>, key: Key): nat
  {
    multiset(EntryKeys(entries))[key]
  }

  function CallKeys(calls: seq<Msg>): (keys: seq<Key>)
    requires forall m | m in calls :: m.Request?
    ensures |keys| == |calls| && forall i | 0 <= i < |calls| :: calls[i] in calls && keys[i] == KeyOf(calls[i])
  {
    seq(|calls|, i requires 0 <= i < |calls| => assert calls[i] in calls; KeyOf(calls[i]))
  }

  function One(b: bool): nat
  {
    if b then 1 else 0
  }

  lemma Removed<T>(s: seq<T>, k: nat)
    requires k < |s|
    ensures multiset(s) == multiset(RemoveAt(s, k)) + multiset{s[k]}
    ensures forall x | x in RemoveAt(s, k) :: x in s
  {
    assert s == s[..k] + [s[k]] + s[k + 1..];
  }

  lemma CountSent(net: seq<Packet<Msg>>, p: Packet<Msg>, t: Tag)
    ensures Count(net + [p], t) == Count(net, t) + One(TagOf(p) == t)
  {
    assert Tags(net + [p]) == Tags(net) + [TagOf(p)];
  }

  lemma CountTaken(net: seq<Packet<Msg>>, k: nat, t: Tag)
    requires k < |net|
    ensures Count(net, t) == Count(RemoveAt(net, k), t) + One(TagOf(net[k]) == t)
  {
    assert Tags(RemoveAt(net, k)) == RemoveAt(Tags(net), k);
    Removed(Tags(net), k);
  }

  lemma CountEntryAdded(entries: seq<ClientReg>, e: ClientReg, key: Key)
    ensures CountEntries(entries + [e], key) == CountEntries(entries, key) + One(EntryKey(e) == key)
  {
    assert EntryKeys(entries + [e]) == EntryKeys(entries) + [EntryKey(e)];
  }

  lemma CountEntryRemoved(entries: seq<ClientReg>, k: nat, key: Key)
    requires k < |entries|
    ensures CountEntries(entries, key) == CountEntries(RemoveAt(entries, k), key) + One(EntryKey(entries[k]) == key)
  {
    assert EntryKeys(RemoveAt(entries, k)) == RemoveAt(EntryKeys(entries), k);
    Removed(EntryKeys(entries), k);
  }

  lemma CountPositive(net: seq<Packet<Msg>>, k: nat)
    requires k < |net|
    ensures Count(net, TagOf(net[k])) > 0
  {
    assert Tags(net)[k] in multiset(Tags(net));
  }

  /** An entry is pending for a key exactly when the search for it succeeds. */
  lemma CountFound(entries: seq<ClientReg>, id: int, op: bytes)
    ensures CountEntries(entries, Key(id, op)) > 0 <==> FirstMatch(entries, id, op) < |entries|
  {
    var k := FirstMatch(entries, id, op);
    if k < |entries| {
      assert EntryKeys(entries)[k] in multiset(EntryKeys(entries));
    }
    if Key(id, op) in multiset(EntryKeys(entries)) {
      var j :| 0 <= j < |entries| && EntryKeys(entries)[j] == Key(id, op);
      assert Matches(entries[j], id, op);
    }
  }
}
