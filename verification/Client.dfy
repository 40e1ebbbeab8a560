/**
client/pack_client_request_data.c and the run-time behaviour of a generated client function
(client/generate_proxy.pl:84-99).
*/
module Client {
  import opened MsgPack
  import opened Common
  import opened Framing
  import opened Formats
  import opened Generators
  import opened Stubs

  function RequestHdrs(id: int, from: Endpoint, op: bytes): seq<Hdr>
  {
    [ Hdr(REQUEST_TYPE_HDR, IntValue(SERVICE_REQUEST)),
      Hdr(MESSAGE_ID_HDR, IntValue(id)),
      Hdr(SENDER_ADDRESS_HDR, Str(from.address)),
      Hdr(REPLY_PORT_HDR, Str(from.port)),
      Hdr(OPERATION_HDR, Str(op)) ]
  }

  lemma RequestHdrsGood(id: int, from: Endpoint, op: bytes)
    requires IsInt32(id) && GoodEndpoint(from) && IsC(op)
    ensures GoodHdrs(RequestHdrs(id, from, op))
  {
    HeaderNames();
    hide REQUEST_TYPE_HDR, MESSAGE_ID_HDR, SENDER_ADDRESS_HDR, REPLY_PORT_HDR, OPERATION_HDR;
    var hs := RequestHdrs(id, from, op);
    assert forall i | 0 <= i < |hs| :: GoodHdr(hs[i]);
  }

  /** The packet: five headers, then a params array whose announced size is the count of the first loop. */
  function RequestBytes(id: int, from: Endpoint, op: bytes, fmt: bytes, args: seq<Arg>): Outcome<bytes>
    requires IsInt32(id) && GoodEndpoint(from) && IsC(op) && IsC(fmt)
  {
    RequestHdrsGood(id, from, op);
    match Walk(fmt, args)
    case Abort => Abort
    case Ok(packed) =>
      Ok(PackHdrs(RequestHdrs(id, from, op))
         + HeaderStart(SERVICE_PARAMS_HDR) + HeadBytes(ArrayHead(CountPercent(fmt))) + EncodeAll(ArgValues(packed)))
  }

  /**
  The caller's client_address and wait_response_port make up `from`; `id` is what rand() returned.
  The result says whether the C code gets through without undefined behaviour.
  */
  method PackClientRequestData(pk: Packer, id: int, from: Endpoint, op: bytes, fmt: bytes,
      args: seq<Arg>) returns (ok: bool)
    requires IsInt32(id) && GoodEndpoint(from) && IsC(op) && IsC(fmt)
    modifies pk
    ensures ok == RequestBytes(id, from, op, fmt, args).Ok?
    ensures ok ==> pk.data == RequestBytes(id, from, op, fmt, args).value
  {
    hide Encode, EncodeAll, HeadBytes, Walk, PackHdrs, HeaderStart, CountPercent;
    PackRequestHeaders(pk, id, from, op);
    ghost var headers := pk.data;
    StartHeader(SERVICE_PARAMS_HDR, pk);
    var numargs := CountArgs(fmt);
    pk.PackArray(numargs);
    ok := PackFormat(pk, fmt, args);
  }

  method PackRequestHeaders(pk: Packer, id: int, from: Endpoint, op: bytes)
    requires IsInt32(id) && GoodEndpoint(from) && IsC(op)
    modifies pk
    ensures GoodHdrs(RequestHdrs(id, from, op))
    ensures pk.data == PackHdrs(RequestHdrs(id, from, op))
  {
    HeaderNames();
    hide Encode, PackHdrs, REQUEST_TYPE_HDR, MESSAGE_ID_HDR, SENDER_ADDRESS_HDR, REPLY_PORT_HDR, OPERATION_HDR, Header,
      GoodHdr;
    pk.data := [];
    RequestHdrsGood(id, from, op);
    PackFive(RequestHdrs(id, from, op));
    PackMapInt(REQUEST_TYPE_HDR, SERVICE_REQUEST, pk);
    PackMapInt(MESSAGE_ID_HDR, id, pk);
    PackMapStr(SENDER_ADDRESS_HDR, from.address, pk);
    PackMapStr(REPLY_PORT_HDR, from.port, pk);
    PackMapStr(OPERATION_HDR, op, pk);
  }

  /** The counting loop. */
  method CountArgs(fmt: bytes) returns (numargs: nat)
    ensures numargs == CountPercent(fmt)
  {
    var p := 0;
    numargs := 0;
    while p < |fmt|
      invariant p <= |fmt| && numargs == CountPercent(fmt[..p])
    {
      assert fmt[..p + 1][..p] == fmt[..p];
      if fmt[p] != '%' {
        p := p + 1;
        continue;
      }
      numargs := numargs + 1;
      p := p + 1;
    }
    assert fmt[..p] == fmt;
  }

  // ---------- A generated client function ----------

  /** A packet, where it is sent, and the port the answer is awaited on. */
  datatype ClientCall = ClientCall(to: Endpoint, waitPort: bytes, packet: bytes)

  /** What the three names that the function uses besides its own mean inside it. */
  function CallContext(names: seq<bytes>, args: seq<Arg>, from: Address, broker: Address): Outcome<(Endpoint, bytes)>
    requires |names| == |args|
  {
    match Resolve(names, args, BROKER_ADDRESS_VAR, Ok(StrArg(broker.address)))
    case Ok(StrArg(address)) =>
      (match Resolve(names, args, BROKER_PORT_VAR, Ok(StrArg(broker.port)))
       case Ok(StrArg(port)) =>
         (match Resolve(names, args, WAIT_PORT_VAR, Ok(StrArg(from.port)))
          case Ok(StrArg(waitPort)) => Ok((Endpoint(address, port), waitPort))
          case _ => Abort)
       case _ => Abort)
    case _ => Abort
  }

  /** What the client function takes for the outer variable n: a parameter of that name, if there is one. */
  ghost predicate Means(names: seq<bytes>, args: seq<Arg>, n: bytes, outer: bytes, value: bytes)
    requires |names| == |args|
  {
    if n in names then NamedArg(names, args, n) == Ok(StrArg(value)) else value == outer
  }

  /** Where a call goes, and where its answer is awaited. */
  lemma CallContextExactly(names: seq<bytes>, args: seq<Arg>, from: Address, broker: Address)
    requires |names| == |args| && CallContext(names, args, from, broker).Ok?
    ensures var (to, waitPort) := CallContext(names, args, from, broker).value;
      && Means(names, args, "broker_address", broker.address, to.address)
      && Means(names, args, "broker_port", broker.port, to.port)
      && Means(names, args, "wait_response_port", from.port, waitPort)
  {
    hide NamedArg, CallContext, Means;
    OuterNames(names, args, from, broker);
    var (to, waitPort) := CallContext(names, args, from, broker).value;
    ResolvedMeans(names, args, "broker_address", broker.address, to.address);
    ResolvedMeans(names, args, "broker_port", broker.port, to.port);
    ResolvedMeans(names, args, "wait_response_port", from.port, waitPort);
  }

  lemma ResolvedMeans(names: seq<bytes>, args: seq<Arg>, n: bytes, outer: bytes, value: bytes)
    requires |names| == |args| && IsC(outer) && IsC(value)
    requires Resolve(names, args, n, Ok(StrArg(outer))) == Ok(StrArg(value))
    ensures Means(names, args, n, outer, value)
  {
    hide NamedArg;
  }

  lemma OuterNames(names: seq<bytes>, args: seq<Arg>, from: Address, broker: Address)
    requires |names| == |args| && CallContext(names, args, from, broker).Ok?
    ensures var (to, waitPort) := CallContext(names, args, from, broker).value;
      && Resolve(names, args, "broker_address", Ok(StrArg(broker.address))) == Ok(StrArg(to.address))
      && Resolve(names, args, "broker_port", Ok(StrArg(broker.port))) == Ok(StrArg(to.port))
      && Resolve(names, args, "wait_response_port", Ok(StrArg(from.port))) == Ok(StrArg(waitPort))
  {
    hide Resolve;
  }

  /** The call made by the client function of this signature. Its parameters hide the globals. */
  ghost function ClientRequest(sig: Sig, id: int, from: Endpoint, broker: Address, args: seq<Arg>): Outcome<ClientCall>
    requires GoodSig(sig) && Typed(sig, args) && IsInt32(id) && GoodEndpoint(from)
  {
    ClientFormat(sig, args);
    var stub := ClientStubFor(sig);
    var names := ParamNames(sig.params);
    match NamedArgs(names, args, stub.callArgs)
    case Abort => Abort
    case Ok(values) =>
      match RequestBytes(id, from, stub.op, stub.format, values)
      case Abort => Abort
      case Ok(packet) =>
        match CallContext(names, args, from, broker)
        case Abort => Abort
        case Ok((to, waitPort)) => Ok(ClientCall(to, waitPort, packet))
  }

  lemma ClientFormat(sig: Sig, args: seq<Arg>)
    requires GoodSig(sig) && Typed(sig, args)
    ensures ClientStubFor(sig).op == sig.name
    ensures ClientStubFor(sig).format == Directives(args) && IsC(Directives(args))
  {
    hide Split, NonEmpty, TokenTypes, TokenNames, TypesFormat, PrintParams, Directives;
    SignatureRecovered(sig.params);
    FormatOfTypes(sig.params, args);
    DirectivesAreC(args);
  }

  /** The headers of a whole request. */
  function CallHdrs(id: int, from: Endpoint, op: bytes, args: seq<Arg>): seq<Hdr>
  {
    RequestHdrs(id, from, op) + [ParamsHdr(args)]
  }

  function ParamsHdr(args: seq<Arg>): Hdr
  {
    Hdr(SERVICE_PARAMS_HDR, Array(ArgValues(args)))
  }

  lemma CallHdrsGood(id: int, from: Endpoint, op: bytes, args: seq<Arg>)
    requires IsInt32(id) && GoodEndpoint(from) && IsC(op) && |args| < 0x1_0000_0000
    ensures GoodHdrs(RequestHdrs(id, from, op)) && GoodHdr(ParamsHdr(args))
    ensures GoodHdrs(CallHdrs(id, from, op, args))
  {
    HeaderNames();
    RequestHdrsGood(id, from, op);
    hide RequestHdrs, SERVICE_PARAMS_HDR;
  }

  /** A format that announces as many elements as it packs closes the packet with a whole header. */
  lemma WholeRequest(id: int, from: Endpoint, op: bytes, fmt: bytes, args: seq<Arg>)
    requires IsInt32(id) && GoodEndpoint(from) && IsC(op) && IsC(fmt)
    requires Walk(fmt, args).Ok? && WellFormed(fmt)
    ensures var packed := Walk(fmt, args).value;
      && |packed| < 0x1_0000_0000
      && GoodHdrs(CallHdrs(id, from, op, packed))
      && RequestBytes(id, from, op, fmt, args) == Ok(PackHdrs(CallHdrs(id, from, op, packed)))
  {
    LoopsAgree(fmt, args);
    HeaderNames();
    hide Walk, PackHdrs, EncodeAll, HeadBytes, HeaderStart, ArgValues, WellFormed, CountPercent, RequestHdrs,
      EncodeHdr, GoodHdr;
    var packed := Walk(fmt, args).value;
    CallHdrsGood(id, from, op, packed);
    LastHeader(RequestHdrs(id, from, op), ParamsHdr(packed));
    ParamsEncoding(packed);
    Associate4(PackHdrs(RequestHdrs(id, from, op)), HeaderStart(SERVICE_PARAMS_HDR), HeadBytes(ArrayHead(|packed|)),
      EncodeAll(ArgValues(packed)));
  }

  lemma ParamsEncoding(args: seq<Arg>)
    requires |args| < 0x1_0000_0000
    ensures GoodHdr(ParamsHdr(args)) && |SERVICE_PARAMS_HDR| == 6
    ensures EncodeHdr(ParamsHdr(args)) ==
      HeaderStart(SERVICE_PARAMS_HDR) + HeadBytes(ArrayHead(|args|)) + EncodeAll(ArgValues(args))
  {
    HeaderNames();
    hide EncodeAll, HeadBytes, HeaderStart, SERVICE_PARAMS_HDR;
    HeaderEncoding(SERVICE_PARAMS_HDR, Array(ArgValues(args)));
    var b, c, d := HeaderStart(SERVICE_PARAMS_HDR), HeadBytes(ArrayHead(|args|)), EncodeAll(ArgValues(args));
    assert b + (c + d) == b + c + d;
  }

  lemma LastHeader(hs: seq<Hdr>, last: Hdr)
    requires GoodHdrs(hs) && GoodHdr(last)
    ensures GoodHdrs(hs + [last])
    ensures PackHdrs(hs + [last]) == PackHdrs(hs) + EncodeHdr(last)
  {
    hide EncodeHdr, PackHdrs;
    PackNext(hs + [last], |hs|);
    assert (hs + [last])[..|hs|] == hs && (hs + [last])[..|hs| + 1] == hs + [last];
  }

  /** The client function of any signature packs its arguments whole and in order. */
  lemma ClientRequestWire(sig: Sig, id: int, from: Endpoint, broker: Address, args: seq<Arg>)
    requires GoodSig(sig) && Typed(sig, args) && IsInt32(id) && GoodEndpoint(from)
    ensures GoodHdrs(CallHdrs(id, from, sig.name, args))
    ensures ClientRequest(sig, id, from, broker, args) ==
      match CallContext(ParamNames(sig.params), args, from, broker)
      case Abort => Abort
      case Ok((to, waitPort)) => Ok(ClientCall(to, waitPort, PackHdrs(CallHdrs(id, from, sig.name, args))))
  {
    hide Split, NonEmpty, TokenTypes, TokenNames, TypesFormat, PrintParams, Directives, Walk;
    hide RequestBytes, NamedArgs, CallContext;
    SignatureRecovered(sig.params);
    var names := ParamNames(sig.params);
    NamedArgsInOrder(names, args, 0);
    assert names[0..] == names && args[0..] == args;
    ClientFormat(sig, args);
    WalkDirectives(args);
    LoopsAgree(Directives(args), args);
    WholeRequest(id, from, sig.name, Directives(args), args);
  }

  /** The call goes to the broker, and its answer is awaited where the request says. */
  ghost predicate WellAddressed(sig: Sig, id: int, from: Endpoint, broker: Address, args: seq<Arg>)
    requires GoodSig(sig) && Typed(sig, args) && IsInt32(id) && GoodEndpoint(from)
  {
    var call := ClientRequest(sig, id, from, broker, args);
    call.Ok? && call.value.to == broker && call.value.waitPort == from.port
  }

  /** For every argument list it does so, if and only if no parameter hides one of the client's globals. */
  lemma WellAddressedExactly(sig: Sig)
    requires GoodSig(sig)
    ensures (forall id, from, broker, args | Typed(sig, args) && IsInt32(id) && GoodEndpoint(from) ::
               WellAddressed(sig, id, from, broker, args)) <==> ClientClear(sig)
  {
    hide ClientRequest, GoodSig;
    forall id, from, broker, args | ClientClear(sig) && Typed(sig, args) && IsInt32(id) && GoodEndpoint(from)
      ensures WellAddressed(sig, id, from, broker, args)
    {
      ClientRequestWire(sig, id, from, broker, args);
      ClearCallContext(sig, args, from, broker);
    }
    if !ClientClear(sig) {
      var there, args := Endpoint("x", "x"), Defaults(sig.params);
      ClientRequestWire(sig, 0, there, there, args);
      HiddenCallContext(sig, there, there);
      assert !WellAddressed(sig, 0, there, there, args);
    }
  }

  lemma ClearCallContext(sig: Sig, args: seq<Arg>, from: Address, broker: Address)
    requires ClientClear(sig) && |args| == |sig.params|
    ensures CallContext(ParamNames(sig.params), args, from, broker) == Ok((broker, from.port))
  {
    forall n | n in ParamNames(sig.params)
      ensures n !in {BROKER_ADDRESS_VAR, BROKER_PORT_VAR, WAIT_PORT_VAR}
    {
      var k :| 0 <= k < |sig.params| && n == sig.params[k].name;
      assert sig.params[k] in sig.params;
    }
  }

  /** A hidden name means 0 or the empty string when the arguments are. */
  lemma HiddenCallContext(sig: Sig, from: Address, broker: Address)
    requires !ClientClear(sig) && from.port != [] && broker.address != [] && broker.port != []
    ensures CallContext(ParamNames(sig.params), Defaults(sig.params), from, broker) != Ok((broker, from.port))
  {
    var names, args := ParamNames(sig.params), Defaults(sig.params);
    var p :| p in sig.params && p.name in {BROKER_ADDRESS_VAR, BROKER_PORT_VAR, WAIT_PORT_VAR};
    var k :| 0 <= k < |sig.params| && sig.params[k] == p;
    assert names[k] == p.name;
    ResolveDefault(names, args, p.name);
  }

  /** How the client function takes its result out of the response. */
  function Reply(accessor: Accessor, response: bytes): Outcome<Arg>
  {
    match accessor
    case NoReturn => Abort
    case GetHdrIntReply =>
      (match HdrInt(response, REPLY_HDR)
       case Ok(i) => Ok(IntArg(i))
       case Abort => Abort)
    case GetHdrStrReply =>
      (match HdrStr(response, REPLY_HDR)
       case Ok(s) => if IsC(s) then Ok(StrArg(s)) else Abort
       case Abort => Abort)
  }

  /**
  The sending half of a generated client function: a connection of its own to wherever the names of
  the broker lead, and the port to wait on.
  */
  method SendCall(sig: Sig, id: int, from: Endpoint, broker: Address, args: seq<Arg>)
    returns (ok: bool, to: Endpoint, waitPort: bytes, connection: Channel)
    requires GoodSig(sig) && Typed(sig, args) && IsInt32(id) && GoodEndpoint(from)
    ensures ok == ClientRequest(sig, id, from, broker, args).Ok? && fresh(connection)
    ensures ok ==>
      var call := ClientRequest(sig, id, from, broker, args).value;
      to == call.to && waitPort == call.waitPort && connection.data == Frame(call.packet)
  {
    hide RequestBytes, NamedArgs, ClientStubFor, Frame, PackHdrs, CallContext;
    ClientRequestWire(sig, id, from, broker, args);
    ClientFormat(sig, args);
    to, waitPort := broker, from.port;
    connection := new Channel();
    var stub := ClientStubFor(sig);
    var values := NamedArgs(ParamNames(sig.params), args, stub.callArgs);
    if values.Abort? {
      return false, to, waitPort, connection;
    }
    var pk := new Packer();
    ok := PackClientRequestData(pk, id, from, stub.op, stub.format, values.value);
    var context := CallContext(ParamNames(sig.params), args, from, broker);
    if !ok || context.Abort? {
      return false, to, waitPort, connection;
    }
    to, waitPort := context.value.0, context.value.1;
    SendData(connection, pk.data);
    assert [] + Frame(pk.data) == Frame(pk.data);
  }

  /** The waiting half: one packet from the connection that came in, and the result out of it. */
  method AwaitReply(connection: Channel, accessor: Accessor) returns (r: Outcome<Arg>)
    modifies connection
    ensures match Unframe(old(connection.data))
            case Abort => r == Abort
            case Ok((packet, rest)) => connection.data == rest && r == Reply(accessor, packet)
  {
    hide Unframe, HdrInt, HdrStr;
    var received := GetResponse(connection);
    if received.Abort? {
      return Abort;
    }
    match accessor {
      case NoReturn => return Abort;
      case GetHdrIntReply =>
        var i := GetHdrInt(received.value, REPLY_HDR);
        if i.Abort? {
          return Abort;
        }
        return Ok(IntArg(i.value));
      case GetHdrStrReply =>
        var s := GetHdrStr(received.value, REPLY_HDR);
        if s.Abort? || !IsC(s.value) {
          return Abort;
        }
        return Ok(StrArg(s.value));
    }
  }
}
