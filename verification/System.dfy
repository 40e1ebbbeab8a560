/**
The system as it is: packets are bytes on connections, the broker is BrokerStep and a server is
ServerStep on the bytes they read, a client is its generated stub. This machine runs in lock step
with the machine over messages: at every point of every run, its world is the encoding of the
other's.
*/
module System {
  import Registrations
  import Stubs
  import Generators
  import Formats
  import opened MsgPack
  import opened Common
  import opened Framing
  import opened Client
  import opened Server
  import opened Broker
  import opened Messages
  import opened Rpc
  import opened Protocol
  import opened Invariants
  import Steps

  /**
  `crashed`: the broker, or a client packing its call, has exited or run into undefined behaviour;
  `dead`: the servers that have. What a client makes of its answer is Clients.Returned.
  */
  datatype WireWorld = WireWorld(
    broker: BrokerState,
    registered: seq<bool>,
    dead: set<nat>,
    net: seq<Packet<bytes>>,
    delivered: seq<Packet<bytes>>,
    crashed: bool)

  function WireInit(cfg: Cfg): WireWorld
  {
    WireWorld(BrokerState([], []), seq(|cfg.servers|, _ => false), {}, [], [], false)
  }

  function DestOf(cfg: Cfg, ep: Endpoint): Dest
  {
    if ep == cfg.broker then ToBroker else To(ep)
  }

  function Outgoing(cfg: Cfg, sends: seq<Send>): seq<Packet<bytes>>
  {
    seq(|sends|, i requires 0 <= i < |sends| =>
      Packet(DestOf(cfg, Endpoint(sends[i].address, sends[i].port)), Frame(sends[i].packet)))
  }

  function WireAtBroker(cfg: Cfg, w: WireWorld, packet: bytes): WireWorld
  {
    match BrokerStep(w.broker, packet)
    case (_, Abort) => w.(crashed := true)
    case (st, Ok(sends)) => w.(broker := st, net := w.net + Outgoing(cfg, sends))
  }

  /** Nobody reads what is sent to a dead server. */
  ghost function WireAtServer(cfg: Cfg, w: WireWorld, i: nat, data: bytes): WireWorld
    requires ValidCfg(cfg) && i < |cfg.servers| == |w.registered|
  {
    var s := cfg.servers[i];
    assert s in cfg.servers;
    StubsGood(s.iface);
    if i in w.dead then w else
    match Unframe(data)
    case Abort => w.(dead := w.dead + {i})
    case Ok((packet, _)) =>
      match ServerStep(StubsFor(s.iface), Host(s.impl, cfg.broker), w.registered[i], packet)
      case (_, Abort) => w.(dead := w.dead + {i})
      case (registered, Ok(sends)) => w.(registered := w.registered[i := registered],
        net := w.net + Outgoing(cfg, sends))
  }

  lemma CallLegal(cfg: Cfg, client: Endpoint, sig: Generators.Sig, id: int, args: seq<Formats.Arg>)
    requires ValidCfg(cfg) && CanCall(cfg, client, sig, id, args)
    ensures Stubs.GoodSig(sig) && Stubs.Typed(sig, args) && IsInt32(id) && GoodEndpoint(client)
  {
    hide GoodServer, Stubs.GoodSig, Bytes;
  }

  lemma ServerTable(cfg: Cfg, i: nat)
    requires ValidCfg(cfg) && i < |cfg.servers|
    ensures Registrations.GoodTable(cfg.servers[i].ep, cfg.servers[i].table)
  {
    assert cfg.servers[i] in cfg.servers && GoodServer(cfg.header, cfg.servers[i]);
  }

  ghost function WireCall(cfg: Cfg, w: WireWorld, client: Endpoint, sig: Generators.Sig, id: int,
      args: seq<Formats.Arg>):
      (w': WireWorld)
    requires ValidCfg(cfg)
    ensures w'.registered == w.registered
  {
    if !CanCall(cfg, client, sig, id, args) then w else
    CallLegal(cfg, client, sig, id, args);
    match ClientRequest(sig, id, client, cfg.broker, args)
    case Abort => w.(crashed := true)
    case Ok(call) => w.(net := w.net + [Packet(DestOf(cfg, call.to), Frame(call.packet))])
  }

  ghost function WireRegister(cfg: Cfg, w: WireWorld, i: nat): (w': WireWorld)
    requires ValidCfg(cfg)
    ensures w'.registered == w.registered
  {
    if i >= |cfg.servers| || i in w.dead then w else
    ServerTable(cfg, i);
    w.(net := w.net + [Packet(ToBroker, Frame(RegistrationBytes(cfg.servers[i].ep, cfg.servers[i].table)))])
  }

  ghost function WireDeliver(cfg: Cfg, w: WireWorld, k: nat): (w': WireWorld)
    requires ValidCfg(cfg) && |w.registered| == |cfg.servers|
    ensures |w'.registered| == |cfg.servers|
  {
    hide ValidCfg, Unframe, ServerAt, RemoveAt;
    if k >= |w.net| || (w.crashed && w.net[k].dest.ToBroker?) then w else
    var p, w' := w.net[k], w.(net := RemoveAt(w.net, k));
    match p.dest
    case ToBroker =>
      (match Unframe(p.body)
       case Abort => w'.(crashed := true)
       case Ok((packet, _)) => WireAtBroker(cfg, w', packet))
    case To(ep) =>
      if IsServer(cfg, ep) then WireAtServer(cfg, w', ServerAt(cfg.servers, ep), p.body)
      else w'.(delivered := w.delivered + [p])
  }

  ghost function WireApply(cfg: Cfg, w: WireWorld, step: Step): (w': WireWorld)
    requires ValidCfg(cfg) && |w.registered| == |cfg.servers|
    ensures |w'.registered| == |cfg.servers|
  {
    match step
    case Call(client, sig, id, args) => WireCall(cfg, w, client, sig, id, args)
    case Register(i) => WireRegister(cfg, w, i)
    case Deliver(k) => WireDeliver(cfg, w, k)
  }

  ghost function WireRun(cfg: Cfg, steps: seq<Step>): (w: WireWorld)
    requires ValidCfg(cfg)
    ensures |w.registered| == |cfg.servers|
  {
    if steps == [] then WireInit(cfg) else WireApply(cfg, WireRun(cfg, steps[..|steps| - 1]), steps[|steps| - 1])
  }

  // ---------- Encoding a world ----------

  ghost function WireBody(m: Msg): bytes
  {
    if GoodMsg(m) then Frame(Bytes(m)) else []
  }

  ghost function WirePacket(p: Packet<Msg>): Packet<bytes>
  {
    Packet(p.dest, WireBody(p.body))
  }

  ghost function WireNet(net: seq<Packet<Msg>>): (r: seq<Packet<bytes>>)
    ensures |r| == |net| && forall i | 0 <= i < |net| :: r[i] == WirePacket(net[i])
  {
    seq(|net|, i requires 0 <= i < |net| => WirePacket(net[i]))
  }

  ghost function Wire(w: World): WireWorld
  {
    WireWorld(w.broker, w.registered, w.dead, WireNet(w.net), WireNet(w.delivered), w.crashed)
  }

  lemma WireNetStep(net: seq<Packet<Msg>>, k: nat, p: Packet<Msg>)
    ensures WireNet(net + [p]) == WireNet(net) + [WirePacket(p)]
    ensures k < |net| ==> WireNet(RemoveAt(net, k)) == RemoveAt(WireNet(net), k)
    ensures net + [] == net && WireNet(net) + [] == WireNet(net)
  {
  }

  // ---------- Every message in flight fits its frame ----------

  lemma HdrSize(h: Hdr)
    requires GoodHdr(h) && h.val.PosInt?
    ensures |EncodeHdr(h)| < 100
  {
    HeaderEncoding(h.name, h.val);
  }

  lemma AckFits()
    ensures FitsFrame(Ack)
  {
    MsgHdrsGood(Ack);
    var hs := AckHdrs(0);
    PackTwo(hs);
    hide EncodeHdr, PackHdrs;
    HdrSize(hs[0]);
    HdrSize(hs[1]);
  }

  lemma NotEmpty(m: Msg)
    requires GoodMsg(m)
    ensures Bytes(m) != []
  {
    hide Parse, Bytes;
    MsgType(m);
    EmptyBuffer();
  }

  /** The declaration behind a call, and the server's copy of it, are the same. */
  lemma SameDeclaration(cfg: Cfg, q: Msg, i: nat) returns (g: nat)
    requires ValidCfg(cfg) && GoodCall(cfg, q) && i < |cfg.servers| && Implements(cfg.servers[i].iface, q.op)
    ensures g < |cfg.servers[i].iface| && Callable(cfg, q, cfg.servers[i].iface[g])
    ensures Stubs.OfType(cfg.servers[i].impl(q.op, q.args), cfg.servers[i].iface[g].ret)
    ensures FitsFrame(Response(q.id, q.op, cfg.servers[i].impl(q.op, q.args)))
  {
    hide FitsFrame;
    var s := cfg.servers[i];
    assert s in cfg.servers;
    var sig :| Callable(cfg, q, sig);
    var mine :| mine in s.iface && mine.name == q.op;
    assert mine in cfg.header && sig in cfg.header;
    assert mine == sig;
    g :| 0 <= g < |s.iface| && s.iface[g] == mine;
    assert 0 <= q.id < 0x8000_0000 by { RequestId(q); }
    assert mine in s.iface && Stubs.Typed(mine, q.args);
  }

  lemma RequestId(q: Msg)
    requires q.Request? && FitsFrame(q)
    ensures 0 <= q.id < 0x8000_0000
  {
  }

  lemma PacketFits(cfg: Cfg, w: World, p: Packet<Msg>)
    requires ValidCfg(cfg) && CallsOk(cfg, w) && PacketOk(cfg, w, p)
    ensures FitsFrame(p.body)
  {
    hide FitsFrame;
    match p.body
    case Request(_, _, _, _) =>
      assert GoodCall(cfg, p.body);
    case Response(_, _, _) =>
      var q, i :| AnswerFrom(cfg, w, p.body, q, i);
      assert GoodCall(cfg, q);
      var g := SameDeclaration(cfg, q, i);
    case Registration(_, _) =>
      var s :| s in cfg.servers && p.body == RegMsg(s);
      assert GoodServer(cfg.header, s);
    case Ack =>
      AckFits();
  }

  /** A framed message is read back, byte for byte. */
  lemma Framed(m: Msg)
    requires FitsFrame(m)
    ensures GoodMsg(m) && Unframe(WireBody(m)) == Ok((Bytes(m), []))
  {
    hide Bytes, Frame, Unframe;
    NotEmpty(m);
    FrameRoundTrip(Bytes(m), []);
    assert Frame(Bytes(m)) + [] == Frame(Bytes(m));
  }

  lemma ReadBack(cfg: Cfg, w: World, k: nat)
    requires ValidCfg(cfg) && Inv(cfg, w) && k < |w.net|
    ensures GoodMsg(w.net[k].body) && FitsFrame(w.net[k].body)
    ensures Unframe(WireNet(w.net)[k].body) == Ok((Bytes(w.net[k].body), []))
  {
    assert w.net[k] in w.net;
    PacketFits(cfg, w, w.net[k]);
    Framed(w.net[k].body);
  }

  // ---------- Lock step ----------

  lemma CallInLockStep(cfg: Cfg, w: World, client: Endpoint, sig: Generators.Sig, id: int, args: seq<Formats.Arg>)
    requires ValidCfg(cfg) && Inv(cfg, w) && CanCall(cfg, client, sig, id, args)
    ensures WireApply(cfg, Wire(w), Call(client, sig, id, args)) == Wire(Apply(cfg, w, Call(client, sig, id, args)))
  {
    hide ClientRequest, Frame, PackHdrs, Inv, GoodHdrs, CallContext;
    ClientRequestWire(sig, id, client, cfg.broker, args);
    ClearCallContext(sig, args, client, cfg.broker) by { assert sig in cfg.header; }
    var m := Request(id, client, sig.name, args);
    MsgHdrsGood(m);
    WireNetStep(w.net, 0, Packet(ToBroker, m));
  }

  lemma RegisterInLockStep(cfg: Cfg, w: World, i: nat)
    requires ValidCfg(cfg) && Inv(cfg, w) && i < |cfg.servers| && i !in w.dead
    ensures WireApply(cfg, Wire(w), Register(i)) == Wire(Apply(cfg, w, Register(i)))
  {
    ServerTable(cfg, i);
    hide RegistrationBytes, Frame, Bytes, Inv, FitsFrame, Reversed, CanCall;
    hide WireNet, ValidCfg, Registrations.GoodTable;
    Registrations.RegistrationWire(cfg.servers[i].ep, cfg.servers[i].table);
    WireNetStep(w.net, 0, Packet(ToBroker, RegMsg(cfg.servers[i])));
  }

  /** A delivery to a node that listens, on the wire. */
  lemma WireDelivery(cfg: Cfg, w: WireWorld, k: nat, packet: bytes)
    requires ValidCfg(cfg) && |w.registered| == |cfg.servers|
    requires k < |w.net| && Unframe(w.net[k].body) == Ok((packet, []))
    ensures var rest, dest := w.(net := RemoveAt(w.net, k)), w.net[k].dest;
      && (dest.ToBroker? ==> WireApply(cfg, w, Deliver(k)) == if w.crashed then w else WireAtBroker(cfg, rest, packet))
      && (dest.To? && IsServer(cfg, dest.ep) ==>
            WireApply(cfg, w, Deliver(k)) == WireAtServer(cfg, rest, ServerAt(cfg.servers, dest.ep), w.net[k].body))
  {
    hide Unframe, WireAtServer, WireAtBroker, ValidCfg, ServerAt, CanCall;
  }

  /** The same, with messages. */
  lemma Delivery(cfg: Cfg, w: World, k: nat)
    requires |w.registered| == |cfg.servers| && k < |w.net|
    ensures var rest, m, dest := w.(net := RemoveAt(w.net, k)), w.net[k].body, w.net[k].dest;
      && (dest.ToBroker? ==> Apply(cfg, w, Deliver(k)) == if w.crashed then w else AtBroker(rest, m))
      && (dest.To? && IsServer(cfg, dest.ep) ==>
        Apply(cfg, w, Deliver(k)) == AtServer(cfg, rest, ServerAt(cfg.servers, dest.ep), m))
  {
    hide AtServer, AtBroker, ServerAt, CanCall;
  }

  lemma Deliveries(cfg: Cfg, w: World, k: nat)
    requires ValidCfg(cfg) && Inv(cfg, w) && k < |w.net|
    ensures |w.registered| == |cfg.servers| && FitsFrame(w.net[k].body)
    ensures var rest, m, dest := w.(net := RemoveAt(w.net, k)), w.net[k].body, w.net[k].dest;
      && (dest.ToBroker? ==>
            if w.crashed then WireApply(cfg, Wire(w), Deliver(k)) == Wire(w) && Apply(cfg, w, Deliver(k)) == w
            else
              && WireApply(cfg, Wire(w), Deliver(k)) == WireAtBroker(cfg, Wire(rest), Bytes(m))
              && Apply(cfg, w, Deliver(k)) == AtBroker(rest, m))
      && (dest.To? && IsServer(cfg, dest.ep) ==>
            && WireApply(cfg, Wire(w), Deliver(k)) ==
              WireAtServer(cfg, Wire(rest), ServerAt(cfg.servers, dest.ep), WireBody(m))
            && Apply(cfg, w, Deliver(k)) == AtServer(cfg, rest, ServerAt(cfg.servers, dest.ep), m))
  {
    hide Inv, Bytes, WireAtServer, AtServer, WireAtBroker, AtBroker, ValidCfg, ServerAt, WireApply, Apply;
    ReadBack(cfg, w, k);
    Registered(cfg, w);
    Delivery(cfg, w, k);
    WireDelivery(cfg, Wire(w), k, Bytes(w.net[k].body));
    WireNetStep(w.net, k, w.net[k]);
  }

  lemma Registered(cfg: Cfg, w: World)
    requires Inv(cfg, w)
    ensures |w.registered| == |cfg.servers|
  {
  }

  lemma InFlightOk(cfg: Cfg, w: World, k: nat)
    requires Inv(cfg, w) && k < |w.net|
    ensures PacketOk(cfg, w, w.net[k])
    ensures w.net[k].body.Request? ==> GoodCall(cfg, w.net[k].body)
  {
    hide Accounts, GoodCall;
    assert w.net[k] in w.net;
  }

  lemma BrokerInLockStep(cfg: Cfg, w: World, k: nat)
    requires ValidCfg(cfg) && Inv(cfg, w) && k < |w.net| && w.net[k].dest == ToBroker
    ensures WireApply(cfg, Wire(w), Deliver(k)) == Wire(Apply(cfg, w, Deliver(k)))
  {
    hide Inv, Bytes, WireAtBroker, AtBroker, WireApply, Apply, WireAtServer, AtServer, ValidCfg;
    var m := w.net[k].body;
    Deliveries(cfg, w, k);
    InFlightOk(cfg, w, k);
    if w.crashed {
      return;
    }
    var rest := w.(net := RemoveAt(w.net, k));
    match m
    case Request(_, _, op, _) => RequestInLockStep(cfg, w, rest, m);
    case Response(id, op, _) =>
      Steps.ResponseFinds(cfg, w, k);
      NotTheBroker(cfg, w);
      ResponseInLockStep(cfg, rest, m);
    case Registration(_, _) =>
      NotTheBroker(cfg, w);
      RegistrationFrom(cfg, w, m);
      RegistrationInLockStep(cfg, rest, m);
    case Ack =>
  }

  /** No node shares the broker's endpoint. */
  lemma NotTheBroker(cfg: Cfg, w: World)
    requires ValidCfg(cfg) && Inv(cfg, w)
    ensures forall ep | IsServer(cfg, ep) :: ep != cfg.broker
    ensures forall e | e in w.broker.pending :: Endpoint(e.address, e.port) != cfg.broker
  {
    hide FitsFrame, Accounts, GoodServer, NetOk, DeliveredOk, SvcOk, RegisteredOk;
    forall ep | IsServer(cfg, ep)
      ensures ep != cfg.broker
    {
      assert cfg.servers[ServerAt(cfg.servers, ep)] in cfg.servers;
    }
    forall e | e in w.broker.pending
      ensures Endpoint(e.address, e.port) != cfg.broker
    {
      var q :| FromCall(w, e, q);
      assert GoodCall(cfg, q);
    }
  }

  lemma RequestInLockStep(cfg: Cfg, w: World, rest: World, m: Msg)
    requires ValidCfg(cfg) && Inv(cfg, w) && rest.broker == w.broker && !rest.crashed && GoodMsg(m) && m.Request?
    ensures WireAtBroker(cfg, Wire(rest), Bytes(m)) == Wire(AtBroker(rest, m))
  {
    hide ValidCfg, IsServer, Accounts, CallsOk, NetOk, DeliveredOk, SvcOk, RegisteredOk, EntriesOk, Bytes, WireNet;
    NotTheBroker(cfg, w);
    Steps.RouteFound(cfg, w, m.op);
    RequestAtBroker(rest.broker, m);
    hide Inv, Bytes, BrokerStep, Route, Destination, Frame, RoutesTo;
    var route := Route(w.broker.svc, m.op).value;
    if route.Some? {
      var to := Destination(route.value).value.value;
      WireNetStep(rest.net, 0, Packet(To(to), m));
      assert Outgoing(cfg, [Send(to.address, to.port, Bytes(m))]) == [WirePacket(Packet(To(to), m))];
    } else {
      WireNetStep(rest.net, 0, Packet(ToBroker, m));
      assert Outgoing(cfg, []) == [];
    }
  }

  lemma ResponseInLockStep(cfg: Cfg, rest: World, m: Msg)
    requires forall e | e in rest.broker.pending :: Endpoint(e.address, e.port) != cfg.broker
    requires GoodMsg(m) && m.Response? && !rest.crashed
    requires FirstMatch(rest.broker.pending, m.id, m.op) < |rest.broker.pending|
    ensures WireAtBroker(cfg, Wire(rest), Bytes(m)) == Wire(AtBroker(rest, m))
  {
    ResponseAtBroker(rest.broker, m);
    hide Bytes, BrokerStep, Frame;
    var e := rest.broker.pending[FirstMatch(rest.broker.pending, m.id, m.op)];
    var p := Packet(To(Endpoint(e.address, e.port)), m);
    WireNetStep(rest.net, 0, p);
    assert Outgoing(cfg, [Send(e.address, e.port, Bytes(m))]) == [WirePacket(p)];
  }

  lemma RegistrationFrom(cfg: Cfg, w: World, m: Msg)
    requires ValidCfg(cfg) && PacketOk(cfg, w, Packet(ToBroker, m)) && m.Registration?
    ensures m.from != cfg.broker
  {
    hide GoodServer;
  }

  lemma RegistrationInLockStep(cfg: Cfg, rest: World, m: Msg)
    requires FitsFrame(m) && m.Registration? && m.from != cfg.broker && !rest.crashed
    ensures WireAtBroker(cfg, Wire(rest), Bytes(m)) == Wire(AtBroker(rest, m))
  {
    hide Bytes, BrokerStep, Frame, RegOf, GoodEndpoint, WireNet, WireBody;
    WireBodyGood(Ack);
    RegistrationAtBroker(rest.broker, m);
    var p := Packet(To(m.from), Ack);
    WireNetStep(rest.net, 0, p);
    assert Outgoing(cfg, [Send(m.from.address, m.from.port, Bytes(Ack))]) == [WirePacket(p)];
  }

  lemma ServerInLockStep(cfg: Cfg, w: World, k: nat)
    requires ValidCfg(cfg) && Inv(cfg, w) && k < |w.net| && w.net[k].dest.To? && IsServer(cfg, w.net[k].dest.ep)
    ensures WireApply(cfg, Wire(w), Deliver(k)) == Wire(Apply(cfg, w, Deliver(k)))
  {
    hide Inv, Bytes, WireAtBroker, AtBroker, WireApply, Apply, WireAtServer, AtServer, ValidCfg, GoodCall, ServerAt;
    var m := w.net[k].body;
    Deliveries(cfg, w, k);
    InFlightOk(cfg, w, k);
    var i := ServerAt(cfg.servers, w.net[k].dest.ep);
    var rest := w.(net := RemoveAt(w.net, k));
    if m.Ack? {
      AckInLockStep(cfg, rest, i);
    } else {
      CallServedInLockStep(cfg, rest, i, m);
    }
  }

  lemma AckInLockStep(cfg: Cfg, rest: World, i: nat)
    requires ValidCfg(cfg) && i < |cfg.servers| == |rest.registered|
    ensures WireAtServer(cfg, Wire(rest), i, WireBody(Ack)) == Wire(AtServer(cfg, rest, i, Ack))
  {
    AckFits();
    Framed(Ack);
    MsgType(Ack);
    hide Bytes, ReqType, ValidCfg, WireBody, Unframe, Frame;
    WireNetStep(rest.net, 0, Packet(ToBroker, Ack));
    assert Outgoing(cfg, []) == [];
  }

  lemma ServerStepRequest(iface: seq<Generators.Sig>, host: Host, registered: bool, m: Msg)
    requires GoodIface(iface) && GoodMsg(m) && m.Request?
    ensures GoodStubs(StubsFor(iface))
    ensures ServerStep(StubsFor(iface), host, registered, Bytes(m)) ==
      (registered, if registered then HandleRequest(StubsFor(iface), host, Bytes(m)) else Ok([]))
  {
    hide Bytes, ReqType, HandleRequest;
    StubsGood(iface);
    MsgType(m);
  }

  lemma GoodIfaceAt(cfg: Cfg, i: nat)
    requires ValidCfg(cfg) && i < |cfg.servers|
    ensures GoodIface(cfg.servers[i].iface)
  {
    assert cfg.servers[i] in cfg.servers;
  }

  /** What a request does to a server: nothing, one response, or a crash. */
  lemma ServerStepCall(cfg: Cfg, i: nat, registered: bool, m: Msg)
    requires ValidCfg(cfg) && GoodCall(cfg, m) && FitsFrame(m) && i < |cfg.servers|
    ensures var s := cfg.servers[i]; var r := Response(m.id, m.op, s.impl(m.op, m.args));
      && GoodStubs(StubsFor(s.iface))
      && (Implements(s.iface, m.op) ==> GoodMsg(r))
      && ServerStep(StubsFor(s.iface), Host(s.impl, cfg.broker), registered, Bytes(m)) ==
           (registered, if !registered || !Implements(s.iface, m.op) then Ok([])
                        else if AllReceivable(m.args) then Ok([Send(cfg.broker.address, cfg.broker.port, Bytes(r))])
                        else Abort)
  {
    var s := cfg.servers[i];
    var host := Host(s.impl, cfg.broker);
    GoodIfaceAt(cfg, i);
    if Implements(s.iface, m.op) {
      var g := SameDeclaration(cfg, m, i);
      assert s.iface[g] in s.iface;
      ExactlyOneAnswer(s.iface, host, m, g);
    } else {
      NoAnswer(s.iface, host, m);
    }
    hide Bytes, HandleRequest, ValidCfg, GoodIface, GoodCall, Implements, ServerStep, AllReceivable;
    ServerStepRequest(s.iface, host, registered, m);
  }

  lemma CallServedOnWire(cfg: Cfg, w: WireWorld, i: nat, m: Msg)
    requires ValidCfg(cfg) && m.Request? && GoodCall(cfg, m) && FitsFrame(m) && i < |cfg.servers| == |w.registered|
    ensures var r := Response(m.id, m.op, cfg.servers[i].impl(m.op, m.args));
      WireAtServer(cfg, w, i, WireBody(m)) ==
        if i in w.dead || !w.registered[i] || !Implements(cfg.servers[i].iface, m.op) then w
        else if AllReceivable(m.args) then w.(net := w.net + [Packet(ToBroker, WireBody(r))])
        else w.(dead := w.dead + {i})
  {
    hide Bytes, Frame, Unframe, ValidCfg, GoodCall, Implements, ServerStep, FitsFrame, AllReceivable, WireBody,
      StubsFor, GoodMsg;
    Framed(m);
    ServerStepCall(cfg, i, w.registered[i], m);
    var r := Response(m.id, m.op, cfg.servers[i].impl(m.op, m.args));
    assert Outgoing(cfg, []) == [];
    assert w.registered[i := w.registered[i]] == w.registered;
    if Implements(cfg.servers[i].iface, m.op) {
      WireBodyGood(r);
      assert Outgoing(cfg, [Send(cfg.broker.address, cfg.broker.port, Bytes(r))]) == [Packet(ToBroker, WireBody(r))];
    }
  }

  lemma CallServedInLockStep(cfg: Cfg, rest: World, i: nat, m: Msg)
    requires ValidCfg(cfg) && GoodCall(cfg, m) && FitsFrame(m) && m.Request? && i < |cfg.servers| == |rest.registered|
    ensures WireAtServer(cfg, Wire(rest), i, WireBody(m)) == Wire(AtServer(cfg, rest, i, m))
  {
    hide ValidCfg, GoodCall, Implements, FitsFrame, AllReceivable, WireBody, WireAtServer, WireNet;
    CallServedOnWire(cfg, Wire(rest), i, m);
    WireNetStep(rest.net, 0, Packet(ToBroker, Response(m.id, m.op, cfg.servers[i].impl(m.op, m.args))));
  }

  lemma WireBodyGood(m: Msg)
    requires GoodMsg(m)
    ensures WireBody(m) == Frame(Bytes(m))
  {
  }

  lemma ClientInLockStep(cfg: Cfg, w: World, k: nat)
    requires ValidCfg(cfg) && Inv(cfg, w) && k < |w.net| && w.net[k].dest.To? && !IsServer(cfg, w.net[k].dest.ep)
    ensures WireApply(cfg, Wire(w), Deliver(k)) == Wire(Apply(cfg, w, Deliver(k)))
  {
    hide Inv, Unframe, Frame, Bytes, ValidCfg, ServerAt;
    WireNetStep(w.net, k, w.net[k]);
    WireNetStep(w.delivered, 0, w.net[k]);
  }

  lemma StepInLockStep(cfg: Cfg, w: World, step: Step)
    requires ValidCfg(cfg) && Inv(cfg, w)
    ensures WireApply(cfg, Wire(w), step) == Wire(Apply(cfg, w, step))
  {
    hide Inv, ValidCfg;
    match step
    case Call(client, sig, id, args) =>
      if CanCall(cfg, client, sig, id, args) {
        CallInLockStep(cfg, w, client, sig, id, args);
      }
    case Register(i) =>
      if i < |cfg.servers| && i !in w.dead {
        RegisterInLockStep(cfg, w, i);
      }
    case Deliver(k) =>
      if k < |w.net| {
        hide WireApply, Apply;
        if w.net[k].dest.ToBroker? {
          BrokerInLockStep(cfg, w, k);
        } else if IsServer(cfg, w.net[k].dest.ep) {
          ServerInLockStep(cfg, w, k);
        } else {
          ClientInLockStep(cfg, w, k);
        }
      }
  }

  /** Refinement: the byte machine's world is the encoding of the message machine's, in every run. */
  lemma {:induction false} Refinement(cfg: Cfg, steps: seq<Step>)
    requires ValidCfg(cfg)
    ensures WireRun(cfg, steps) == Wire(Run(cfg, steps))
  {
    hide Inv, ValidCfg, WireApply, Apply;
    if steps == [] {
      assert WireNet([]) == [];
    } else {
      Refinement(cfg, steps[..|steps| - 1]);
      Steps.RunInv(cfg, steps[..|steps| - 1]);
      StepInLockStep(cfg, Run(cfg, steps[..|steps| - 1]), steps[|steps| - 1]);
    }
  }
}
