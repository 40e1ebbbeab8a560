/**
The server: server/service_register_with_broker.c, server/unpack_marshal_call.c,
server/pack_client_response_data.c, the dispatch generated by server/generate_proxy.pl, and the
packet step of server/server.c.
*/
module Server {
  import opened MsgPack
  import opened Common
  import opened Formats
  import Framing
  import opened Generators
  import opened Stubs

  // ---------- Registration ----------

  /** names, then NULL: the table `char* services[]` of server_interface.c. */
  ghost predicate Table(services: seq<Ptr>, names: seq<bytes>)
  {
    && |names| < |services| && |names| < 0x8000_0000
    && services[|names|] == Null
    && forall i | 0 <= i < |names| :: services[i] == At(names[i]) && IsC(names[i])
  }

  const SERVICE_NAME: bytes := "theServiceName"

  function RegistrationHdrs(from: Endpoint, count: int): seq<Hdr>
  {
    [ Hdr(REQUEST_TYPE_HDR, IntValue(SERVICE_REGISTRATION)),
      Hdr(SENDER_ADDRESS_HDR, Str(from.address)),
      Hdr(REPLY_PORT_HDR, Str(from.port)),
      Hdr(SERVICE_NAME_HDR, Str(SERVICE_NAME)),
      Hdr(SERVICES_COUNT_HDR, IntValue(count)) ]
  }

  lemma RegistrationHdrsGood(from: Endpoint, count: int)
    requires GoodEndpoint(from) && IsInt32(count)
    ensures GoodHdrs(RegistrationHdrs(from, count))
  {
    HeaderNames();
    hide REQUEST_TYPE_HDR, SENDER_ADDRESS_HDR, REPLY_PORT_HDR, SERVICE_NAME_HDR, SERVICES_COUNT_HDR;
    var hs := RegistrationHdrs(from, count);
    assert forall i | 0 <= i < |hs| :: GoodHdr(hs[i]);
  }

  /** The packing loop runs from the end of the table to its front and skips empty names. */
  function PackedNames(names: seq<bytes>): seq<bytes>
  {
    if names == [] then []
    else (if names[|names| - 1] == [] then [] else [names[|names| - 1]]) + PackedNames(names[..|names| - 1])
  }

  function Strs(names: seq<bytes>): (vs: seq<Value>)
    ensures |vs| == |names| && forall i | 0 <= i < |names| :: vs[i] == Str(names[i])
  {
    seq(|names|, i requires 0 <= i < |names| => Str(names[i]))
  }

  lemma {:induction false} PackedNamesGood(names: seq<bytes>)
    requires forall n | n in names :: IsC(n)
    ensures forall n | n in PackedNames(names) :: IsC(n) && n != []
    ensures |PackedNames(names)| <= |names|
    ensures forall v | v in Strs(PackedNames(names)) :: Packable(v)
  {
    if names != [] {
      var init := names[..|names| - 1];
      assert forall n | n in init :: n in names;
      assert names[|names| - 1] in names;
      PackedNamesGood(init);
    }
  }

  /** As many names are packed as announced exactly when no name is empty; they are packed in reverse. */
  lemma {:induction false} PackedNamesMeaning(names: seq<bytes>)
    ensures |PackedNames(names)| <= |names|
    ensures |PackedNames(names)| == |names| <==> [] !in names
    ensures [] !in names ==> forall i | 0 <= i < |names| :: PackedNames(names)[i] == names[|names| - 1 - i]
  {
    if names != [] {
      var init, last := names[..|names| - 1], names[|names| - 1];
      assert names == init + [last];
      PackedNamesMeaning(init);
    }
  }

  ghost function RegistrationBytes(from: Endpoint, names: seq<bytes>): bytes
    requires GoodEndpoint(from) && |names| < 0x8000_0000 && forall n | n in names :: IsC(n)
  {
    HeaderNames();
    RegistrationHdrsGood(from, |names|);
    PackedNamesGood(names);
    PackHdrs(RegistrationHdrs(from, |names|))
    + HeaderStart(SERVICES_HDR) + HeadBytes(ArrayHead(|names|)) + EncodeAll(Strs(PackedNames(names)))
  }

  method PackRegistrationHeaders(pk: Packer, from: Endpoint)
    requires GoodEndpoint(from)
    modifies pk
    ensures GoodHdrs(RegistrationHdrs(from, 0))
    ensures pk.data == [] + EncodeHdr(RegistrationHdrs(from, 0)[0]) + EncodeHdr(RegistrationHdrs(from, 0)[1])
                          + EncodeHdr(RegistrationHdrs(from, 0)[2]) + EncodeHdr(RegistrationHdrs(from, 0)[3])
  {
    HeaderNames();
    hide Encode, PackHdrs, REQUEST_TYPE_HDR, SENDER_ADDRESS_HDR, REPLY_PORT_HDR, SERVICE_NAME_HDR, SERVICES_COUNT_HDR,
      Header, GoodHdr;
    RegistrationHdrsGood(from, 0);
    PackFive(RegistrationHdrs(from, 0));
    pk.data := [];
    PackMapInt(REQUEST_TYPE_HDR, SERVICE_REGISTRATION, pk);
    PackMapStr(SENDER_ADDRESS_HDR, from.address, pk);
    PackMapStr(REPLY_PORT_HDR, from.port, pk);
    PackMapStr(SERVICE_NAME_HDR, SERVICE_NAME, pk);
  }

  method ServiceRegisterWithBroker(pk: Packer, from: Endpoint, services: seq<Ptr>, ghost names: seq<bytes>)
    requires GoodEndpoint(from) && Table(services, names)
    modifies pk
    ensures forall n | n in names :: IsC(n)
    ensures pk.data == RegistrationBytes(from, names)
  {
    HeaderNames();
    hide Encode, EncodeAll, HeadBytes, PackHdrs, HeaderStart, PackedNames, Strs, GoodHdr;
    PackRegistrationHeaders(pk, from);
    var i := 0;
    while services[i] != Null
      invariant 0 <= i <= |names|
      decreases |names| - i
    {
      i := i + 1;
    }
    PackMapInt(SERVICES_COUNT_HDR, i, pk);
    RegistrationHdrsGood(from, i);
    PackFive(RegistrationHdrs(from, i));
    assert pk.data == PackHdrs(RegistrationHdrs(from, i));
    StartHeader(SERVICES_HDR, pk);
    pk.PackArray(i);
    PackNames(pk, services, i, names);
  }

  lemma PackedNamesStep(names: seq<bytes>, i: nat)
    requires i < |names| && forall n | n in names :: IsC(n)
    ensures forall v | v in Strs(PackedNames(names[..i + 1])) + Strs(PackedNames(names[..i])) :: Packable(v)
    ensures IsC(names[i])
    ensures names[i] == [] ==> EncodeAll(Strs(PackedNames(names[..i + 1]))) == EncodeAll(Strs(PackedNames(names[..i])))
    ensures names[i] != [] ==> EncodeAll(Strs(PackedNames(names[..i + 1]))) ==
                               HeadBytes(StrHead(|names[i]|)) + names[i] + EncodeAll(Strs(PackedNames(names[..i])))
  {
    hide HeadBytes;
    var before, after := names[..i], names[..i + 1];
    PackedNamesGood(before);
    PackedNamesGood(after);
    assert after[..|after| - 1] == before;
    assert names[i] in names;
    if names[i] == [] {
      assert PackedNames(after) == [] + PackedNames(before) == PackedNames(before);
    } else {
      var vs := Strs(PackedNames(after));
      assert vs[1..] == Strs(PackedNames(before));
      StrEncoding(names[i]);
    }
  }

  /** The loop that packs the services, from services[last], which is NULL, down to services[0]. */
  method PackNames(pk: Packer, services: seq<Ptr>, last: nat, ghost names: seq<bytes>)
    requires Table(services, names) && last == |names|
    modifies pk
    ensures forall v | v in Strs(PackedNames(names)) :: Packable(v)
    ensures pk.data == old(pk.data) + EncodeAll(Strs(PackedNames(names)))
  {
    hide EncodeAll, HeadBytes, PackedNames, Strs;
    PackedNamesGood(names);
    NoNamesLeft();
    ghost var front := pk.data;
    ghost var left := |names|;
    assert names[..left] == names;
    var i := last;
    while i >= 0
      invariant -1 <= i <= last && left == if i < last then i + 1 else last
      invariant forall v | v in Strs(PackedNames(names[..left])) :: Packable(v)
      invariant front + EncodeAll(Strs(PackedNames(names))) == pk.data + EncodeAll(Strs(PackedNames(names[..left])))
    {
      if i < last {
        PackedNamesStep(names, i);
        left := i;
      }
      if services[i] != Null && services[i].s != [] {
        ghost var before := pk.data;
        pk.PackStr(|services[i].s|);
        pk.PackStrBody(services[i].s);
        Associate4(before, HeadBytes(StrHead(|names[i]|)), names[i], EncodeAll(Strs(PackedNames(names[..left]))));
      }
      i := i - 1;
    }
    assert names[..0] == [];
  }

  lemma NoNamesLeft()
    ensures EncodeAll(Strs(PackedNames([]))) == []
  {
  }

  // ---------- Responses ----------

  function ResponseHdrs(id: int, op: bytes): seq<Hdr>
  {
    [ Hdr(REQUEST_TYPE_HDR, IntValue(SERVICE_REQUEST_RESPONSE)),
      Hdr(MESSAGE_ID_HDR, IntValue(id)),
      Hdr(OPERATION_HDR, Str(op)) ]
  }

  lemma ResponseHdrsGood(id: int, op: bytes)
    requires IsInt32(id) && IsC(op)
    ensures GoodHdrs(ResponseHdrs(id, op))
  {
    HeaderNames();
    hide REQUEST_TYPE_HDR, MESSAGE_ID_HDR, OPERATION_HDR;
    var hs := ResponseHdrs(id, op);
    assert forall i | 0 <= i < |hs| :: GoodHdr(hs[i]);
  }

  /** Three headers, then a reply header whose value is whatever the format packs. */
  ghost function ResponseBytes(id: int, op: bytes, fmt: bytes, args: seq<Arg>): Outcome<bytes>
    requires IsInt32(id) && IsC(op)
  {
    HeaderNames();
    ResponseHdrsGood(id, op);
    match Walk(fmt, args)
    case Abort => Abort
    case Ok(packed) => Ok(PackHdrs(ResponseHdrs(id, op)) + HeaderStart(REPLY_HDR) + EncodeAll(ArgValues(packed)))
  }

  method PackClientResponseData(pk: Packer, op: bytes, id: int, fmt: bytes, args: seq<Arg>) returns (ok: bool)
    requires IsInt32(id) && IsC(op)
    modifies pk
    ensures ok == ResponseBytes(id, op, fmt, args).Ok?
    ensures ok ==> pk.data == ResponseBytes(id, op, fmt, args).value
  {
    HeaderNames();
    hide Encode, EncodeAll, PackHdrs, HeaderStart, Walk, REQUEST_TYPE_HDR, MESSAGE_ID_HDR, OPERATION_HDR, Header,
      GoodHdr;
    ResponseHdrsGood(id, op);
    PackThree(ResponseHdrs(id, op));
    pk.data := [];
    PackMapInt(REQUEST_TYPE_HDR, SERVICE_REQUEST_RESPONSE, pk);
    PackMapInt(MESSAGE_ID_HDR, id, pk);
    PackMapStr(OPERATION_HDR, op, pk);
    StartHeader(REPLY_HDR, pk);
    ok := PackFormat(pk, fmt, args);
  }

  // ---------- Handling a request ----------

  /** An entry of the parameter vector. */
  datatype Slot = Empty | IntSlot(i: int) | StrSlot(s: bytes)

  function SlotOf(v: Value): Slot
  {
    match v
    case Str(s) => StrSlot(CStr(s))
    case PosInt(n) => IntSlot(ToInt32(n))
    case _ => Empty
  }

  function SlotsOf(elems: seq<Value>): seq<Slot>
  {
    seq(|elems|, i requires 0 <= i < |elems| => SlotOf(elems[i]))
  }

  /**
  A generated getter: an int is read through its slot, a string is the slot. A variable called
  params is initialised from itself.
  */
  function EvalGetter(g: Getter, slots: seq<Slot>): Outcome<Arg>
  {
    if g.index >= |slots| || g.name == PARAMS_VAR then Abort else
    match slots[g.index]
    case Empty => Abort
    case IntSlot(i) => if g.ty == "int" && IsInt32(i) then Ok(IntArg(i)) else Abort
    case StrSlot(s) => if g.ty != "int" && IsC(s) then Ok(StrArg(s)) else Abort
  }

  function EvalGetters(getters: seq<Getter>, slots: seq<Slot>): (r: Outcome<seq<Arg>>)
    ensures r.Ok? ==> |r.value| == |getters|
  {
    if getters == [] then Ok([]) else
    match EvalGetter(getters[0], slots)
    case Abort => Abort
    case Ok(a) =>
      match EvalGetters(getters[1..], slots)
      case Abort => Abort
      case Ok(rest) => Ok([a] + rest)
  }

  function GetterNames(getters: seq<Getter>): seq<bytes>
  {
    seq(|getters|, i requires 0 <= i < |getters| => getters[i].name)
  }

  /** The services themselves: any function from operation and arguments to a result. */
  type Impl = (bytes, seq<Arg>) -> Arg

  ghost predicate GoodStubs(stubs: seq<ServerStub>)
  {
    forall st | st in stubs :: IsC(st.op)
  }

  /** The services and the broker of a server process. */
  datatype Host = Host(impl: Impl, broker: Address)

  /** What the four names that a block uses besides its own mean inside it. */
  datatype Context = Context(id: int, op: bytes, to: Endpoint)

  /** A variable of the wrong type is a constraint violation, an unset id undefined. */
  function BlockContext(names: seq<bytes>, values: seq<Arg>, broker: Address, id: Option<int>,
      op: bytes): (r: Outcome<Context>)
    requires |names| == |values| && (id.Some? ==> IsInt32(id.value)) && IsC(op)
    ensures r.Ok? ==> IsInt32(r.value.id) && IsC(r.value.op)
  {
    match Resolve(names, values, MESSAGE_ID_VAR, if id.Some? then Ok(IntArg(id.value)) else Abort)
    case Ok(IntArg(i)) =>
      (match Resolve(names, values, OPERATION_VAR, Ok(StrArg(op)))
       case Ok(StrArg(o)) =>
         (match Resolve(names, values, BROKER_ADDRESS_VAR, Ok(StrArg(broker.address)))
          case Ok(StrArg(address)) =>
            (match Resolve(names, values, BROKER_PORT_VAR, Ok(StrArg(broker.port)))
             case Ok(StrArg(port)) => Ok(Context(i, o, Endpoint(address, port)))
             case _ => Abort)
          case _ => Abort)
       case _ => Abort)
    case _ => Abort
  }

  /** The body of one generated block: getters, call, response. Its variables hide those around it. */
  ghost function CallStub(st: ServerStub, host: Host, id: Option<int>, slots: seq<Slot>): Outcome<Send>
    requires IsC(st.op) && (id.Some? ==> IsInt32(id.value))
  {
    var names := GetterNames(st.getters);
    match EvalGetters(st.getters, slots)
    case Abort => Abort
    case Ok(values) =>
      match NamedArgs(names, values, st.callArgs)
      case Abort => Abort
      case Ok(args) =>
        match BlockContext(names, values, host.broker, id, st.op)
        case Abort => Abort
        case Ok(context) =>
          match ResponseBytes(context.id, context.op, st.format, [host.impl(st.op, args)])
          case Abort => Abort
          case Ok(packet) => Ok(Send(context.to.address, context.to.port, packet))
  }

  /** call_marshelResponse_send: one generated block after the other. */
  ghost function Dispatch(stubs: seq<ServerStub>, host: Host, id: Option<int>, op: Ptr,
      slots: seq<Slot>): Outcome<seq<Send>>
    requires GoodStubs(stubs) && (id.Some? ==> IsInt32(id.value))
  {
    if stubs == [] then Ok([])
    else if !op.At? then Abort
    else
      assert stubs[0] in stubs;
      assert forall st | st in stubs[1..] :: st in stubs;
      if op.s != stubs[0].op then Dispatch(stubs[1..], host, id, op, slots) else
      match CallStub(stubs[0], host, id, slots)
      case Abort => Abort
      case Ok(response) =>
        match Dispatch(stubs[1..], host, id, op, slots)
        case Abort => Abort
        case Ok(rest) => Ok([response] + rest)
  }

  /** The locals of unpack_marshal_call_send that live across iterations, and what was sent so far. */
  datatype CallState = CallState(id: Option<int>, op: Ptr, sent: seq<Send>)

  ghost function HandleHdr(stubs: seq<ServerStub>, host: Host, st: CallState, h: Hdr): (r: Outcome<CallState>)
    requires GoodStubs(stubs) && (st.id.Some? ==> IsInt32(st.id.value))
    ensures r.Ok? && r.value.id.Some? ==> IsInt32(r.value.id.value)
  {
    if StrMatch(h, OPERATION_HDR) then Ok(st.(op := At(CStr(h.val.s))))
    else if IntMatch(h, MESSAGE_ID_HDR) then Ok(st.(id := Some(ToInt32(h.val.n))))
    else if h.val.Array? then
      match Dispatch(stubs, host, st.id, st.op, SlotsOf(h.val.elems))
      case Abort => Abort
      case Ok(responses) => Ok(st.(sent := st.sent + responses))
    else Ok(st)
  }

  ghost function HandleObjs(stubs: seq<ServerStub>, host: Host, st: CallState, objs: seq<Value>): Outcome<seq<Send>>
    requires GoodStubs(stubs) && (st.id.Some? ==> IsInt32(st.id.value))
    decreases |objs|
  {
    if objs == [] then Ok(st.sent) else
    match ExtractHeader(objs[0])
    case Abort => Abort
    case Ok(h) =>
      match HandleHdr(stubs, host, st, h)
      case Abort => Abort
      case Ok(st') => HandleObjs(stubs, host, st', objs[1..])
  }

  /**
  The responses that a request packet makes the server send. The length is passed on as an int; a
  negative one makes the unpacker read past the packet.
  */
  ghost function HandleRequest(stubs: seq<ServerStub>, host: Host, packet: bytes): Outcome<seq<Send>>
    requires GoodStubs(stubs)
  {
    if |packet| >= INT_LIMIT then Abort else HandleObjs(stubs, host, CallState(None, Uninit, []), ReadAll(packet).objs)
  }

  /** Runs the getters of one block. */
  method RunGetters(getters: seq<Getter>, slots: array<Slot>) returns (r: Outcome<seq<Arg>>)
    ensures r == EvalGetters(getters, slots[..])
  {
    if getters == [] {
      return Ok([]);
    }
    var a := EvalGetter(getters[0], slots[..]);
    if a.Abort? {
      return Abort;
    }
    var rest := RunGetters(getters[1..], slots);
    if rest.Abort? {
      return Abort;
    }
    return Ok([a.value] + rest.value);
  }

  /** The generated function; every iteration is one generated block. */
  method CallMarshalResponseSend(stubs: seq<ServerStub>, host: Host, id: Option<int>, op: Ptr, params: array<Slot>)
    returns (r: Outcome<seq<Send>>)
    requires GoodStubs(stubs) && (id.Some? ==> IsInt32(id.value))
    ensures r == Dispatch(stubs, host, id, op, params[..])
  {
    if stubs == [] {
      return Ok([]);
    }
    if !op.At? {
      return Abort;
    }
    assert stubs[0] in stubs;
    assert forall st | st in stubs[1..] :: st in stubs;
    var responses: seq<Send> := [];
    if op.s == stubs[0].op {
      var st := stubs[0];
      var values := RunGetters(st.getters, params);
      if values.Abort? {
        return Abort;
      }
      var names := GetterNames(st.getters);
      var args := NamedArgs(names, values.value, st.callArgs);
      if args.Abort? {
        return Abort;
      }
      var context := BlockContext(names, values.value, host.broker, id, op.s);
      if context.Abort? {
        return Abort;
      }
      var pk := new Packer();
      var ok := PackClientResponseData(pk, context.value.op, context.value.id, st.format,
        [host.impl(st.op, args.value)]);
      if !ok {
        return Abort;
      }
      responses := [Send(context.value.to.address, context.value.to.port, pk.data)];
    }
    var rest := CallMarshalResponseSend(stubs[1..], host, id, op, params);
    if rest.Abort? {
      return Abort;
    }
    assert [] + rest.value == rest.value;
    return Ok(responses + rest.value);
  }

  /** Fills the parameter vector from the params array. */
  method FillParams(elems: seq<Value>) returns (params: array<Slot>)
    ensures fresh(params) && params[..] == SlotsOf(elems)
  {
    params := new Slot[|elems|](_ => Empty);
    var i := 0;
    while i < |elems|
      invariant i <= |elems|
      invariant forall j | 0 <= j < i :: params[j] == SlotOf(elems[j])
      invariant forall j | i <= j < |elems| :: params[j] == Empty
    {
      match elems[i] {
        case Str(s) => params[i] := StrSlot(CStr(s));
        case PosInt(n) => params[i] := IntSlot(ToInt32(n));
        case _ =>
      }
      i := i + 1;
    }
  }

  method UnpackMarshalCallSend(stubs: seq<ServerStub>, host: Host, buffer: bytes) returns (r: Outcome<seq<Send>>)
    requires GoodStubs(stubs)
    ensures r == HandleRequest(stubs, host, buffer)
  {
    hide Parse, ReadAll, Dispatch;
    if |buffer| >= INT_LIMIT {
      return Abort;
    }
    var off := 0;
    var st := CallState(None, Uninit, []);
    var status := UnpackNext(buffer, off);
    assert buffer[0..] == buffer;
    while status.Success?
      invariant off <= |buffer| && status == UnpackNext(buffer, off)
      invariant st.id.Some? ==> IsInt32(st.id.value)
      invariant HandleRequest(stubs, host, buffer) == HandleObjs(stubs, host, st, ReadAll(buffer[off..]).objs)
      decreases |buffer| - off
    {
      var header := ExtractHeader(status.value);
      if header.Abort? {
        return Abort;
      }
      var h := header.value;
      if h.name == OPERATION_HDR && h.val.Str? {
        st := st.(op := At(CStr(h.val.s)));
      } else if h.name == MESSAGE_ID_HDR && h.val.PosInt? {
        st := st.(id := Some(ToInt32(h.val.n)));
      } else if h.val.Array? {
        var params := FillParams(h.val.elems);
        var responses := CallMarshalResponseSend(stubs, host, st.id, st.op, params);
        if responses.Abort? {
          return Abort;
        }
        st := st.(sent := st.sent + responses.value);
      }
      assert ReadAll(buffer[off..]).objs[1..] == ReadAll(buffer[off + status.used..]).objs;
      off := off + status.used;
      status := UnpackNext(buffer, off);
    }
    ReadAllEnd(buffer[off..]);
    return Ok(st.sent);
  }

  // ---------- Requests, header by header ----------

  /** The parameter vector, kind by kind. */
  lemma SlotKinds(s: bytes, n: nat, i: int, vs: seq<Value>, t: byte)
    ensures SlotOf(Str(s)) == StrSlot(CStr(s))
    ensures n < 0x8000_0000 ==> SlotOf(PosInt(n)) == IntSlot(n)
    ensures SlotOf(NegInt(i)) == SlotOf(Array(vs)) == SlotOf(Map(vs)) == SlotOf(Other(t, s)) == Empty
    ensures |SlotsOf(vs)| == |vs| && forall k | 0 <= k < |vs| :: SlotsOf(vs)[k] == SlotOf(vs[k])
  {
  }

  /** What one header does to a request in progress, by name; an array starts the call whatever its header is called. */
  lemma HandleHdrTable(stubs: seq<ServerStub>, host: Host, st: CallState, s: bytes, n: nat, elems: seq<Value>,
      name: bytes)
    requires GoodStubs(stubs) && (st.id.Some? ==> IsInt32(st.id.value)) && n < 0x8000_0000
    ensures HandleHdr(stubs, host, st, Hdr("op", Str(s))) == Ok(st.(op := At(CStr(s))))
    ensures HandleHdr(stubs, host, st, Hdr("message-id", PosInt(n))) == Ok(st.(id := Some(n)))
    ensures name != "op" ==> HandleHdr(stubs, host, st, Hdr(name, Str(s))) == Ok(st)
    ensures name != "message-id" ==> HandleHdr(stubs, host, st, Hdr(name, PosInt(n))) == Ok(st)
    ensures HandleHdr(stubs, host, st, Hdr(name, Array(elems))) ==
      match Dispatch(stubs, host, st.id, st.op, SlotsOf(elems))
      case Abort => Abort
      case Ok(sends) => Ok(st.(sent := st.sent + sends))
  {
    hide Dispatch, CStr;
  }

  /** Parameters before the operation are dispatched on an unset pointer. */
  lemma ParamsTooEarly(stubs: seq<ServerStub>, host: Host, id: Option<int>, sent: seq<Send>, elems: seq<Value>,
      name: bytes)
    requires GoodStubs(stubs) && stubs != [] && (id.Some? ==> IsInt32(id.value))
    ensures HandleHdr(stubs, host, CallState(id, Uninit, sent), Hdr(name, Array(elems))) == Abort
  {
  }

  // ---------- Names inside a block ----------

  /** The variable called n is the one with this name. */
  lemma {:induction false} NamedIs(names: seq<bytes>, values: seq<Arg>, n: bytes)
    requires |names| == |values| && n in names
    ensures exists k :: VariableAt(names, values, n, k) && NamedArg(names, values, n) == Ok(values[k])
  {
    if names[0] == n {
      assert VariableAt(names, values, n, 0);
    } else {
      NamedIs(names[1..], values[1..], n);
      var k :| VariableAt(names[1..], values[1..], n, k) && NamedArg(names[1..], values[1..], n) == Ok(values[1..][k]);
      assert VariableAt(names, values, n, k + 1);
    }
  }

  ghost predicate VariableAt(names: seq<bytes>, values: seq<Arg>, n: bytes, k: int)
  {
    |names| == |values| && 0 <= k < |names| && names[k] == n
  }

  /**
  What a block answers with: each of its four outer names is a variable of the block, if there is one,
  or what it was.
  */
  lemma ContextExactly(names: seq<bytes>, values: seq<Arg>, broker: Address, id: int, op: bytes)
    requires |names| == |values| && IsInt32(id) && IsC(op)
    ensures var c := BlockContext(names, values, broker, Some(id), op);
      c.Ok? ==>
        && (if "message_id" in names
            then exists k :: VariableAt(names, values, "message_id", k) && values[k] == IntArg(c.value.id)
            else c.value.id == id)
        && (if "operation" in names
            then exists k :: VariableAt(names, values, "operation", k) && values[k] == StrArg(c.value.op)
            else c.value.op == op)
        && (if "broker_address" in names
            then exists k :: VariableAt(names, values, "broker_address", k) && values[k] == StrArg(c.value.to.address)
            else c.value.to.address == broker.address)
        && (if "broker_port" in names
            then exists k :: VariableAt(names, values, "broker_port", k) && values[k] == StrArg(c.value.to.port)
            else c.value.to.port == broker.port)
  {
    hide NamedArg;
    if "message_id" in names {
      NamedIs(names, values, "message_id");
    }
    if "operation" in names {
      NamedIs(names, values, "operation");
    }
    if "broker_address" in names {
      NamedIs(names, values, "broker_address");
    }
    if "broker_port" in names {
      NamedIs(names, values, "broker_port");
    }
  }

  // ---------- The packet step ----------

  /** What one packet does to isRegistered, and what it makes the server send. */
  ghost function ServerStep(stubs: seq<ServerStub>, host: Host, registered: bool, packet: bytes): (bool,
      Outcome<seq<Send>>)
    requires GoodStubs(stubs)
  {
    match ReqType(packet)
    case Abort => (registered, Abort)
    case Ok(t) =>
      if t == SERVICE_REGISTRATION_ACK then (true, Ok([]))
      else if t == SERVICE_REQUEST && registered then (registered, HandleRequest(stubs, host, packet))
      else (registered, Ok([]))
  }

  /** Requests are type 0, acknowledgements type 3; all else, and what cannot be read, is ignored. */
  lemma ServerTypes(stubs: seq<ServerStub>, host: Host, registered: bool, packet: bytes)
    requires GoodStubs(stubs)
    ensures ReqType(packet) == Ok(3) ==> ServerStep(stubs, host, registered, packet) == (true, Ok([]))
    ensures ReqType(packet) == Ok(0) ==>
      ServerStep(stubs, host, registered, packet) ==
        (registered, if registered then HandleRequest(stubs, host, packet) else Ok([]))
    ensures ReqType(packet).Ok? && ReqType(packet).value !in {0, 3} ==>
      ServerStep(stubs, host, registered, packet) == (registered, Ok([]))
    ensures !Parse(packet).Success? ==> ServerStep(stubs, host, registered, packet) == (registered, Ok([]))
  {
    hide ReqType, HandleRequest, Parse;
    ReqTypeExactly(packet);
  }

  class ServerProcess {
    var isRegistered: bool
    const stubs: seq<ServerStub>
    const host: Host

    constructor (stubs: seq<ServerStub>, host: Host)
      ensures !isRegistered && this.stubs == stubs && this.host == host
    {
      isRegistered := false;
      this.stubs := stubs;
      this.host := host;
    }

    /** ReadAndProcessDataOnSocket. */
    method ReadAndProcessData(connection: Framing.Channel) returns (out: Outcome<seq<Send>>)
      requires GoodStubs(stubs)
      modifies this, connection
      ensures match Framing.Unframe(old(connection.data))
              case Abort => out == Abort && isRegistered == old(isRegistered)
              case Ok((packet, rest)) =>
                && connection.data == rest
                && (isRegistered, out) == ServerStep(stubs, host, old(isRegistered), packet)
    {
      hide Framing.Unframe, ReqType, HandleRequest;
      var received := Framing.GetResponse(connection);
      if received.Abort? {
        return Abort;
      }
      var packet := received.value;
      var requestType := ReqType(packet);
      if requestType.Abort? {
        return Abort;
      }
      if requestType.value == SERVICE_REGISTRATION_ACK {
        isRegistered := true;
        return Ok([]);
      } else if requestType.value == SERVICE_REQUEST && isRegistered {
        out := UnpackMarshalCallSend(stubs, host, packet);
      } else {
        return Ok([]);
      }
    }
  }
}
