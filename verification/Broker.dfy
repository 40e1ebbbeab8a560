/**
The broker: broker/broker.c and the files it calls. Its two repositories are lists;
LIST_Add appends, LIST_Get indexes in order, LIST_DeleteNode removes that one node.
The functions below say what each operation makes of the lists, the class is the code.
*/
module Broker {
  import opened MsgPack
  import opened Common
  import Framing

  /** struct ServiceRegistration; num_services is the length of services. */
  datatype ServiceReg = ServiceReg(address: Ptr, port: Ptr, services: seq<Ptr>, service_name: Ptr)

  /** struct ClientRequestRegistration. */
  datatype ClientReg = ClientReg(address: bytes, port: bytes, operation: bytes, message_id: int)

  datatype BrokerState = BrokerState(svc: seq<ServiceReg>, pending: seq<ClientReg>)

  // ---------- Registrations ----------

  function UninitServices(n: nat): seq<Ptr>
  {
    seq(n, _ => Uninit)
  }

  predicate AllStrings(elems: seq<Value>)
  {
    forall e | e in elems :: e.Str?
  }

  function ServicePtrs(elems: seq<Value>): seq<Ptr>
    requires AllStrings(elems)
  {
    seq(|elems|, i requires 0 <= i < |elems| => At(CStr(elems[i].s)))
  }

  /** One header of a registration. The array is written into what the last count allocated. */
  function RegHdr(reg: ServiceReg, h: Hdr): Outcome<ServiceReg>
  {
    match h.val
    case Str(s) =>
      if h.name == SENDER_ADDRESS_HDR then Ok(reg.(address := At(CStr(s))))
      else if h.name == REPLY_PORT_HDR then Ok(reg.(port := At(CStr(s))))
      else if h.name == SERVICE_NAME_HDR then Ok(reg.(service_name := At(CStr(s))))
      else Ok(reg)
    case PosInt(n) =>
      if h.name != SERVICES_COUNT_HDR then Ok(reg)
      else if n < 0x8000_0000 then Ok(reg.(services := UninitServices(n))) else Abort
    case Array(elems) =>
      if |elems| <= |reg.services| && AllStrings(elems)
      then Ok(reg.(services := ServicePtrs(elems) + reg.services[|elems|..]))
      else Abort
    case _ => Ok(reg)
  }

  function RegObjs(reg: ServiceReg, objs: seq<Value>): Outcome<ServiceReg>
    decreases |objs|
  {
    if objs == [] then Ok(reg) else
    match ExtractHeader(objs[0])
    case Abort => Abort
    case Ok(h) =>
      match RegHdr(reg, h)
      case Abort => Abort
      case Ok(reg') => RegObjs(reg', objs[1..])
  }

  const BLANK_REG := ServiceReg(Uninit, Uninit, [], Uninit)

  /** The length is passed on as an int; a negative one makes the unpacker read past the packet. */
  function UnpackRegistration(packet: bytes): Outcome<ServiceReg>
  {
    if |packet| >= INT_LIMIT then Abort else RegObjs(BLANK_REG, ReadAll(packet).objs)
  }

  method UnpackServiceRegistrationBuffer(payload: bytes) returns (r: Outcome<ServiceReg>)
    ensures r == UnpackRegistration(payload)
  {
    hide Parse, ReadAll;
    if |payload| >= INT_LIMIT {
      return Abort;
    }
    var off := 0;
    var address, port, serviceName := Uninit, Uninit, Uninit;
    var services := new Ptr[0];
    var status := UnpackNext(payload, off);
    assert payload[0..] == payload && services[..] == [];
    while status.Success?
      invariant off <= |payload| && status == UnpackNext(payload, off)
      invariant UnpackRegistration(payload) ==
        RegObjs(ServiceReg(address, port, services[..], serviceName), ReadAll(payload[off..]).objs)
      invariant fresh(services)
      decreases |payload| - off
    {
      var header := ExtractHeader(status.value);
      if header.Abort? {
        return Abort;
      }
      var h := header.value;
      ghost var before := ServiceReg(address, port, services[..], serviceName);
      assert ReadAll(payload[off..]).objs[1..] == ReadAll(payload[off + status.used..]).objs;
      match h.val {
        case Str(s) =>
          if h.name == SENDER_ADDRESS_HDR {
            address := At(CStr(s));
          } else if h.name == REPLY_PORT_HDR {
            port := At(CStr(s));
          } else if h.name == SERVICE_NAME_HDR {
            serviceName := At(CStr(s));
          }
        case PosInt(n) =>
          if h.name == SERVICES_COUNT_HDR {
            if n >= 0x8000_0000 {
              return Abort;
            }
            services := new Ptr[n](_ => Uninit);
            assert services[..] == UninitServices(n);
          }
        case Array(elems) =>
          var ok := StoreServices(elems, services);
          if !ok {
            return Abort;
          }
        case _ =>
      }
      assert RegHdr(before, h) == Ok(ServiceReg(address, port, services[..], serviceName));
      off := off + status.used;
      status := UnpackNext(payload, off);
    }
    ReadAllEnd(payload[off..]);
    return Ok(ServiceReg(address, port, services[..], serviceName));
  }

  /** The loop over the services array. */
  method StoreServices(elems: seq<Value>, services: array<Ptr>) returns (ok: bool)
    modifies services
    ensures ok <==> |elems| <= services.Length && AllStrings(elems)
    ensures ok ==> services[..] == ServicePtrs(elems) + old(services[..])[|elems|..]
  {
    var i := 0;
    while i < |elems|
      invariant i <= |elems| && i <= services.Length
      invariant forall j | 0 <= j < i :: elems[j].Str? && services[j] == At(CStr(elems[j].s))
      invariant services[i..] == old(services[..])[i..]
    {
      if i >= services.Length || !elems[i].Str? {
        assert elems[i] in elems;
        return false;
      }
      assert old(services[..])[i + 1..] == old(services[..])[i..][1..];
      services[i] := At(CStr(elems[i].s));
      i := i + 1;
    }
    assert forall e | e in elems :: e.Str?;
    assert services[..] == services[..i] + services[i..];
    assert services[..i] == ServicePtrs(elems);
    return true;
  }

  // ---------- Routing a request ----------

  /** The inner loop: does this registration list op? */
  function ListsOp(services: seq<Ptr>, op: bytes): Outcome<bool>
  {
    if services == [] then Ok(false)
    else if !services[0].At? then Abort
    else if services[0].s == op then Ok(true)
    else ListsOp(services[1..], op)
  }

  /** The outer loop: the first registration that lists op. */
  function Route(svc: seq<ServiceReg>, op: bytes): Outcome<Option<ServiceReg>>
  {
    if svc == [] then Ok(None) else
    match ListsOp(svc[0].services, op)
    case Abort => Abort
    case Ok(found) => if found then Ok(Some(svc[0])) else Route(svc[1..], op)
  }

  /** Without an operation, the first comparison is with NULL. */
  function FindServer(packet: bytes, svc: seq<ServiceReg>): Outcome<Option<ServiceReg>>
  {
    match OpName(packet)
    case Abort => Abort
    case Ok(None) => if forall reg | reg in svc :: reg.services == [] then Ok(None) else Abort
    case Ok(Some(op)) => Route(svc, op)
  }

  /** A registration whose services have all been written. */
  ghost predicate Complete(reg: ServiceReg)
  {
    reg.address.At? && reg.port.At? && forall p | p in reg.services :: p.At?
  }

  ghost predicate Lists(reg: ServiceReg, op: bytes)
  {
    At(op) in reg.services
  }

  lemma {:induction false} ListsOpMeaning(services: seq<Ptr>, op: bytes)
    requires forall p | p in services :: p.At?
    ensures ListsOp(services, op) == Ok(At(op) in services)
  {
    if services != [] {
      assert services[0] in services;
      assert forall p | p in services[1..] :: p in services;
      ListsOpMeaning(services[1..], op);
      assert forall p :: p in services <==> p == services[0] || p in services[1..];
    }
  }

  /** The nested search finds the first registration that lists op, and nothing exactly when none does. */
  lemma {:induction false} RouteMeaning(svc: seq<ServiceReg>, op: bytes)
    requires forall r | r in svc :: Complete(r)
    ensures Route(svc, op).Ok?
    ensures Route(svc, op) == Ok(None) <==> forall r | r in svc :: !Lists(r, op)
    ensures forall r :: Route(svc, op) == Ok(Some(r)) <==>
      exists j :: FirstListing(svc, op, j) && svc[j] == r
  {
    if svc != [] {
      var rest := svc[1..];
      assert svc[0] in svc && forall r | r in rest :: r in svc;
      ListsOpMeaning(svc[0].services, op);
      RouteMeaning(rest, op);
      if Lists(svc[0], op) {
        assert FirstListing(svc, op, 0);
      } else {
        forall j | FirstListing(rest, op, j)
          ensures FirstListing(svc, op, j + 1)
        {
        }
        forall j | FirstListing(svc, op, j)
          ensures j > 0 && FirstListing(rest, op, j - 1)
        {
          assert forall i | 0 <= i < j - 1 :: rest[i] == svc[i + 1];
        }
      }
    }
  }

  ghost predicate FirstListing(svc: seq<ServiceReg>, op: bytes, j: int)
  {
    0 <= j < |svc| && Lists(svc[j], op) && forall i | 0 <= i < j :: !Lists(svc[i], op)
  }

  /** Later registrations never change an existing route. */
  lemma {:induction false} RouteStable(svc: seq<ServiceReg>, later: seq<ServiceReg>, op: bytes)
    requires Route(svc, op).Ok? && Route(svc, op).value.Some?
    ensures Route(svc + later, op) == Route(svc, op)
  {
    assert (svc + later)[0] == svc[0];
    if ListsOp(svc[0].services, op) == Ok(false) {
      assert (svc + later)[1..] == svc[1..] + later;
      RouteStable(svc[1..], later, op);
    }
  }

  // ---------- Matching a response ----------

  predicate Matches(e: ClientReg, id: int, op: bytes)
  {
    e.message_id == id && e.operation == op
  }

  /** Index of the first pending entry with this id and operation, the length when there is none. */
  function FirstMatch(pending: seq<ClientReg>, id: int, op: bytes): (k: nat)
    ensures k <= |pending|
    ensures k < |pending| ==> Matches(pending[k], id, op)
    ensures forall j | 0 <= j < k :: !Matches(pending[j], id, op)
  {
    if pending == [] || Matches(pending[0], id, op) then 0 else 1 + FirstMatch(pending[1..], id, op)
  }

  function RemoveAt<T>(s: seq<T>, k: nat): seq<T>
    requires k < |s|
  {
    s[..k] + s[k + 1..]
  }

  // ---------- The three steps ----------

  /** The check of dest->address and dest->port against NULL. */
  function Destination(reg: ServiceReg): Outcome<Option<Endpoint>>
  {
    match (reg.address, reg.port)
    case (Uninit, _) => Abort
    case (Null, _) => Ok(None)
    case (At(_), Uninit) => Abort
    case (At(_), Null) => Ok(None)
    case (At(address), At(port)) => Ok(Some(Endpoint(address, port)))
  }

  /** A request: remember the sender, then forward the packet as it is, when there is a server for it. */
  function RequestStep(st: BrokerState, packet: bytes): (BrokerState, Outcome<seq<Send>>)
  {
    match (HdrStr(packet, OPERATION_HDR), HdrStr(packet, REPLY_PORT_HDR), HdrStr(packet, SENDER_ADDRESS_HDR),
      HdrInt(packet, MESSAGE_ID_HDR))
    case (Ok(op), Ok(port), Ok(address), Ok(id)) =>
      var st' := st.(pending := st.pending + [ClientReg(address, port, op, id)]);
      (match FindServer(packet, st.svc)
       case Abort => (st', Abort)
       case Ok(None) => (st', Ok([]))
       case Ok(Some(reg)) =>
         match Destination(reg)
         case Abort => (st', Abort)
         case Ok(None) => (st', Ok([]))
         case Ok(Some(to)) => (st', Ok([Send(to.address, to.port, packet)])))
    case _ => (st, Abort)
  }

  function AckHdrs(id: int): seq<Hdr>
  {
    [ Hdr(REQUEST_TYPE_HDR, IntValue(SERVICE_REGISTRATION_ACK)), Hdr(MESSAGE_ID_HDR, IntValue(id)) ]
  }

  lemma AckHdrsGood(id: int)
    requires IsInt32(id)
    ensures GoodHdrs(AckHdrs(id))
  {
    HeaderNames();
    hide REQUEST_TYPE_HDR, MESSAGE_ID_HDR;
    var hs := AckHdrs(id);
    assert forall i | 0 <= i < |hs| :: GoodHdr(hs[i]);
  }

  function AckBytes(id: int): bytes
    requires IsInt32(id)
  {
    AckHdrsGood(id);
    PackHdrs(AckHdrs(id))
  }

  /** Every pointer that is formatted into the SQL statements has been written. */
  predicate Written(reg: ServiceReg)
  {
    reg.service_name.At? && reg.address.At? && reg.port.At? && forall p | p in reg.services :: p.At?
  }

  /** A registration: append it, format its fields into statements, then acknowledge it to its own address. */
  function RegistrationStep(st: BrokerState, packet: bytes): (BrokerState, Outcome<seq<Send>>)
  {
    match UnpackRegistration(packet)
    case Abort => (st, Abort)
    case Ok(reg) =>
      var st' := st.(svc := st.svc + [reg]);
      if !Written(reg) then (st', Abort) else
      match (HdrInt(packet, MESSAGE_ID_HDR), HdrStr(packet, REPLY_PORT_HDR), HdrStr(packet, SENDER_ADDRESS_HDR))
      case (Ok(id), Ok(port), Ok(address)) => (st', Ok([Send(address, port, AckBytes(id))]))
      case _ => (st', Abort)
  }

  /** A response: take out the first pending entry it answers, forward the packet to the address stored there. */
  function ResponseStep(st: BrokerState, packet: bytes): (BrokerState, Outcome<seq<Send>>)
  {
    if st.pending == [] then (st, Abort) else
    match (HdrInt(packet, MESSAGE_ID_HDR), HdrStr(packet, OPERATION_HDR))
    case (Ok(id), Ok(op)) =>
      var k := FirstMatch(st.pending, id, op);
      if k == |st.pending| then (st, Abort) else
      (st.(pending := RemoveAt(st.pending, k)), Ok([Send(st.pending[k].address, st.pending[k].port, packet)]))
    case _ => (st, Abort)
  }

  function BrokerStep(st: BrokerState, packet: bytes): (BrokerState, Outcome<seq<Send>>)
  {
    match ReqType(packet)
    case Abort => (st, Abort)
    case Ok(t) =>
      if t == SERVICE_REQUEST then RequestStep(st, packet)
      else if t == SERVICE_REGISTRATION then RegistrationStep(st, packet)
      else if t == SERVICE_REQUEST_RESPONSE then ResponseStep(st, packet)
      else (st, Ok([]))
  }

  /** Requests are type 0, responses type 1, registrations type 2; all else, and what cannot be read, is ignored. */
  lemma BrokerTypes(st: BrokerState, packet: bytes)
    ensures ReqType(packet) == Ok(0) ==> BrokerStep(st, packet) == RequestStep(st, packet)
    ensures ReqType(packet) == Ok(1) ==> BrokerStep(st, packet) == ResponseStep(st, packet)
    ensures ReqType(packet) == Ok(2) ==> BrokerStep(st, packet) == RegistrationStep(st, packet)
    ensures ReqType(packet).Ok? && ReqType(packet).value !in {0, 1, 2} ==> BrokerStep(st, packet) == (st, Ok([]))
    ensures !Parse(packet).Success? ==> BrokerStep(st, packet) == (st, Ok([]))
  {
    hide ReqType, RequestStep, ResponseStep, RegistrationStep, Parse;
    ReqTypeExactly(packet);
  }

  // ---------- Registrations, header by header ----------

  /** What one header does to the record, by name; an array is stored whatever its header is called. */
  lemma RegHdrTable(reg: ServiceReg, s: bytes, n: nat, elems: seq<Value>, name: bytes)
    ensures RegHdr(reg, Hdr("sender-address", Str(s))) == Ok(reg.(address := At(CStr(s))))
    ensures RegHdr(reg, Hdr("reply-port", Str(s))) == Ok(reg.(port := At(CStr(s))))
    ensures RegHdr(reg, Hdr("service-name", Str(s))) == Ok(reg.(service_name := At(CStr(s))))
    ensures name !in {"sender-address", "reply-port", "service-name"} ==> RegHdr(reg, Hdr(name, Str(s))) == Ok(reg)
    ensures n < 0x8000_0000 ==> RegHdr(reg, Hdr("services-count", PosInt(n))) == Ok(reg.(services := UninitServices(n)))
    ensures name != "services-count" ==> RegHdr(reg, Hdr(name, PosInt(n))) == Ok(reg)
    ensures AllStrings(elems) && |elems| <= |reg.services| ==>
      RegHdr(reg, Hdr(name, Array(elems))) == Ok(reg.(services := ServicePtrs(elems) + reg.services[|elems|..]))
    ensures !AllStrings(elems) || |elems| > |reg.services| ==> RegHdr(reg, Hdr(name, Array(elems))) == Abort
  {
    HeaderNames();
    hide CStr, UninitServices, ServicePtrs, AllStrings;
  }

  // ---------- The code ----------

  /** struct DestinationEndpoint, fresh from malloc. */
  class Location {
    var address: Ptr
    var port: Ptr

    constructor ()
      ensures address == port == Uninit
    {
      address, port := Uninit, Uninit;
    }
  }

  class BrokerProcess {
    var svc_repo: seq<ServiceReg>
    var clnt_req_repo: seq<ClientReg>

    constructor ()
      ensures State() == BrokerState([], [])
    {
      svc_repo, clnt_req_repo := [], [];
    }

    function State(): BrokerState
      reads this
    {
      BrokerState(svc_repo, clnt_req_repo)
    }

    method RegClntReq(op: bytes, address: bytes, port: bytes, id: int)
      modifies this`clnt_req_repo
      ensures clnt_req_repo == old(clnt_req_repo) + [ClientReg(address, port, op, id)]
    {
      clnt_req_repo := clnt_req_repo + [ClientReg(address, port, op, id)];
    }

    method FindServerForReq(packet: bytes) returns (r: Outcome<Location>)
      ensures match FindServer(packet, svc_repo)
              case Abort => r == Abort
              case Ok(None) => r.Ok? && fresh(r.value) && r.value.address == r.value.port == Null
              case Ok(Some(reg)) =>
                r.Ok? && fresh(r.value) && r.value.address == reg.address && r.value.port == reg.port
    {
      hide OpName;
      var opName := GetOpName(packet);
      if opName.Abort? {
        return Abort;
      }
      var dest := new Location();
      dest.address, dest.port := Null, Null;
      if |svc_repo| == 0 {
        return Ok(dest);
      }
      var op := opName.value;
      var j := 0;
      assert svc_repo[0..] == svc_repo;
      while j < |svc_repo|
        invariant j <= |svc_repo|
        invariant op.Some? ==> Route(svc_repo, op.value) == Route(svc_repo[j..], op.value)
        invariant op.None? ==> forall k | 0 <= k < j :: svc_repo[k].services == []
      {
        var services := svc_repo[j].services;
        assert svc_repo[j..][1..] == svc_repo[j + 1..];
        var i := 0;
        assert services[0..] == services;
        while i < |services|
          invariant i <= |services|
          invariant op.Some? ==> ListsOp(services, op.value) == ListsOp(services[i..], op.value)
          invariant op.None? ==> i == 0
        {
          assert services[i..][1..] == services[i + 1..];
          if op.None? || !services[i].At? {
            assert svc_repo[j] in svc_repo;
            return Abort;
          }
          if services[i].s == op.value {
            dest.address := svc_repo[j].address;
            dest.port := svc_repo[j].port;
            return Ok(dest);
          }
          i := i + 1;
        }
        j := j + 1;
      }
      return Ok(dest);
    }

    /** Writes dest and deletes the entry when there is a match; otherwise leaves both as they are. */
    method FindClientForResponse(packet: bytes, dest: Location) returns (ok: bool)
      modifies this`clnt_req_repo, dest
      ensures !ok ==> clnt_req_repo == old(clnt_req_repo) && unchanged(dest)
      ensures ok == (old(clnt_req_repo) ==
        [] || (HdrInt(packet, MESSAGE_ID_HDR).Ok? && HdrStr(packet, OPERATION_HDR).Ok?))
      ensures ok && old(clnt_req_repo) == [] ==> clnt_req_repo == [] && unchanged(dest)
      ensures ok && old(clnt_req_repo) != [] ==>
        var k := FirstMatch(old(clnt_req_repo), HdrInt(packet, MESSAGE_ID_HDR).value,
          HdrStr(packet, OPERATION_HDR).value);
        if k == |old(clnt_req_repo)| then clnt_req_repo == old(clnt_req_repo) && unchanged(dest)
        else
          && clnt_req_repo == RemoveAt(old(clnt_req_repo), k)
          && dest.address == At(old(clnt_req_repo)[k].address) && dest.port == At(old(clnt_req_repo)[k].port)
    {
      hide HdrInt, HdrStr, FirstMatch;
      ghost var before := clnt_req_repo;
      var j := 0;
      while j < |clnt_req_repo|
        invariant j <= |clnt_req_repo| && clnt_req_repo == before && unchanged(dest)
        invariant j > 0 ==> HdrInt(packet, MESSAGE_ID_HDR).Ok? && HdrStr(packet, OPERATION_HDR).Ok?
        invariant forall i | 0 <= i < j ::
          !Matches(before[i], HdrInt(packet, MESSAGE_ID_HDR).value, HdrStr(packet, OPERATION_HDR).value)
      {
        var entry := clnt_req_repo[j];
        var id := GetHdrInt(packet, MESSAGE_ID_HDR);
        if id.Abort? {
          return false;
        }
        var op := GetHdrStr(packet, OPERATION_HDR);
        if op.Abort? {
          return false;
        }
        if id.value == entry.message_id && op.value == entry.operation {
          FirstMatchIs(before, id.value, op.value, j);
          dest.address := At(entry.address);
          dest.port := At(entry.port);
          clnt_req_repo := RemoveAt(clnt_req_repo, j);
          return true;
        }
        j := j + 1;
      }
      if before != [] {
        FirstMatchIs(before, HdrInt(packet, MESSAGE_ID_HDR).value, HdrStr(packet, OPERATION_HDR).value, j);
      }
      return true;
    }

    method SendSvcReqAck(packet: bytes) returns (out: Outcome<seq<Send>>)
      ensures out ==
        match (HdrInt(packet, MESSAGE_ID_HDR), HdrStr(packet, REPLY_PORT_HDR), HdrStr(packet, SENDER_ADDRESS_HDR))
        case (Ok(id), Ok(port), Ok(address)) => Ok([Send(address, port, AckBytes(id))])
        case _ => Abort
    {
      hide HdrStr, HdrInt, Encode, PackHdrs, REQUEST_TYPE_HDR, MESSAGE_ID_HDR, Header, GoodHdr;
      HeaderNames();
      var pk := new Packer();
      var messageId := GetHdrInt(packet, MESSAGE_ID_HDR);
      if messageId.Abort? {
        return Abort;
      }
      AckHdrsGood(messageId.value);
      PackTwo(AckHdrs(messageId.value));
      PackMapInt(REQUEST_TYPE_HDR, SERVICE_REGISTRATION_ACK, pk);
      PackMapInt(MESSAGE_ID_HDR, messageId.value, pk);
      var replyPort := GetHdrStr(packet, REPLY_PORT_HDR);
      var senderAddress := GetHdrStr(packet, SENDER_ADDRESS_HDR);
      if replyPort.Abort? || senderAddress.Abort? {
        return Abort;
      }
      return Ok([Send(senderAddress.value, replyPort.value, pk.data)]);
    }

    method RegSvcReq(packet: bytes) returns (out: Outcome<seq<Send>>)
      modifies this`svc_repo
      ensures (State(), out) == RegistrationStep(old(State()), packet)
    {
      hide UnpackRegistration, HdrInt, HdrStr, AckBytes;
      var reg := UnpackServiceRegistrationBuffer(packet);
      if reg.Abort? {
        return Abort;
      }
      svc_repo := svc_repo + [reg.value];
      var formatted := FormatStatements(reg.value);
      if !formatted {
        return Abort;
      }
      out := SendSvcReqAck(packet);
    }

    /** What sprintf reads while it formats the SQL statements; the statements themselves are left out. */
    method FormatStatements(reg: ServiceReg) returns (ok: bool)
      ensures ok <==> Written(reg)
    {
      if !reg.service_name.At? || !reg.address.At? || !reg.port.At? {
        return false;
      }
      var i := 0;
      while i < |reg.services|
        invariant i <= |reg.services|
        invariant forall j | 0 <= j < i :: reg.services[j].At?
      {
        if !reg.services[i].At? {
          assert reg.services[i] in reg.services;
          return false;
        }
        i := i + 1;
      }
      return true;
    }

    /** read_data: one packet from a connection, start to end. */
    method ReadData(connection: Framing.Channel) returns (out: Outcome<seq<Send>>)
      modifies this, connection
      ensures match Framing.Unframe(old(connection.data))
              case Abort => out == Abort && State() == old(State())
              case Ok((packet, rest)) =>
                && connection.data == rest
                && (State(), out) == BrokerStep(old(State()), packet)
    {
      hide Framing.Unframe, ReqType, HdrStr, HdrInt, FindServer, RegistrationStep;
      var received := Framing.GetResponse(connection);
      if received.Abort? {
        return Abort;
      }
      var packet := received.value;
      var reqType := ReqType(packet);
      if reqType.Abort? {
        return Abort;
      }
      if reqType.value == SERVICE_REQUEST {
        out := HandleServiceRequest(packet);
      } else if reqType.value == SERVICE_REGISTRATION {
        out := RegSvcReq(packet);
      } else if reqType.value == SERVICE_REQUEST_RESPONSE {
        var client := new Location();
        var ok := FindClientForResponse(packet, client);
        if !ok || !client.address.At? || !client.port.At? {
          return Abort;
        }
        return Ok([Send(client.address.s, client.port.s, packet)]);
      } else {
        return Ok([]);
      }
    }

    /** The first branch of read_data. */
    method HandleServiceRequest(packet: bytes) returns (out: Outcome<seq<Send>>)
      modifies this
      ensures (State(), out) == RequestStep(old(State()), packet)
    {
      hide HdrStr, HdrInt, FindServer;
      var op := GetHdrStr(packet, OPERATION_HDR);
      var replyPort := GetHdrStr(packet, REPLY_PORT_HDR);
      var senderAddress := GetHdrStr(packet, SENDER_ADDRESS_HDR);
      var msgId := GetHdrInt(packet, MESSAGE_ID_HDR);
      var reqOp := GetHdrStr(packet, OPERATION_HDR);
      if op.Abort? || replyPort.Abort? || senderAddress.Abort? || msgId.Abort? || reqOp.Abort? {
        return Abort;
      }
      RegClntReq(reqOp.value, senderAddress.value, replyPort.value, msgId.value);
      var found := FindServerForReq(packet);
      if found.Abort? {
        return Abort;
      }
      var dest := found.value;
      if dest.address == Uninit {
        return Abort;
      }
      if dest.address == Null {
        return Ok([]);
      }
      if dest.port == Uninit {
        return Abort;
      }
      if dest.port == Null {
        return Ok([]);
      }
      return Ok([Send(dest.address.s, dest.port.s, packet)]);
    }
  }

  lemma FirstMatchIs(pending: seq<ClientReg>, id: int, op: bytes, k: nat)
    requires k <= |pending| && (k < |pending| ==> Matches(pending[k], id, op))
    requires forall j | 0 <= j < k :: !Matches(pending[j], id, op)
    ensures FirstMatch(pending, id, op) == k
  {
  }
}
