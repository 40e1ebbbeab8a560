# Broker RPC protocol: model and proofs

A remote call in this system goes through five hands. A generated client stub packs the arguments,
the broker remembers who asked and forwards the packet to a server that advertised the operation, a
generated server stub takes the packet apart, calls the service and answers to the broker, the
broker looks up who had asked and forwards the answer, and the client takes the result out of the
first packet that reaches it. Nothing in the code says that this adds up to a function call. The
project models the whole path, from bytes on a connection to runs of any number of clients and
servers, and proves what it does: what every node keeps, exactly which calls return the service's
own result, and what becomes of the others.

`dafny verify dfyconfig.toml` checks everything.

## Layers

| files | what they model |
|---|---|
| `MsgPack`, `Common`, `Framing` | MessagePack at byte level, the header packers and the lookup loops, length-prefixed packets |
| `Formats`, `Generators`, `Stubs`, `Client`, `Server` | the format walks, both generator scripts, the stubs they make, registration, dispatch |
| `Broker`, `Messages`, `Packets`, `Registrations`, `Rpc` | the broker as a class over two lists; what each reader makes of each message; the packets byte by byte; one registration and one call, end to end |
| `Protocol`, `Invariants`, `Steps` | the system as a step machine over messages, its invariant, and the proof that each kind of step keeps it |
| `System` | the same machine over bytes, built from the code's own steps, and its refinement of the first |
| `Theorems`, `Ledger`, `History`, `Balances` | what holds over whole runs; conservation and order, counted in steps; which earlier step registered a server, killed it or made a response; what each client is owed |
| `Clients`, `Exactness` | clients that wait for their answers; exactly which calls return their own results |
| `Exchanges` | a run that completes, one that stops the broker, one that kills a server and one that mixes up two callers |
| `Services`, `Sample` | the repository's own seven operations and their server, which meet all premises; runs of them that go right and wrong at concrete values |

Where the source loops, updates fields or writes into arrays, the model is a method or a class
(`Broker.BrokerProcess`, `Server.ServerProcess`, `Common.Packer`, `Framing.Channel`), proved
equal to a function of the input or of the old state; lemmas are about those functions. The two
step machines are built from the same functions: `System.WireApply` moves bytes with
`Broker.BrokerStep`, which `BrokerProcess.ReadData` is proved to perform, `Server.ServerStep`,
which `ServerProcess.ReadAndProcessData` performs, and `Client.ClientRequest`, which
`Client.SendCall` performs.

Every packet travels on a connection of its own, so the network is a bag: any packet in flight may
be the next to arrive, and a request can overtake an acknowledgement. A run is any sequence of
steps (a client calls, a server registers, a packet arrives); a step that is not possible leaves the
world as it is.

## Assumptions

- `STR_Equals` is string equality, `STR_IsNullOrEmpty` is true of NULL and of the empty string.
- `LIST_Add` appends, `LIST_Get(j)` indexes in that order, `LIST_DeleteNode` removes that node only.
- `send` writes everything it is given; `netReadn` reads everything it is asked for unless the peer
  closes the connection first.
- The network neither loses nor duplicates packets, and only nodes of the system send them.
- A server that crashes stays down, and what is sent to it is lost; the broker and the clients go on.
- One packet at the broker is one atomic step: `process_data_avail` runs under the lock and the
  default build has a single thread (broker/broker.h:15-21, broker/broker.c:119-143). One packet at a
  server is one atomic step too.
- `ptrOperation`, declared inside the loop of server/unpack_marshal_call.c:34, keeps its value from
  one iteration to the next.
- Well-formed data: header names of at most 19 characters, NUL-free strings shorter than 2^31 bytes,
  message ids from 0 to 2^31-1 as `rand()` gives them, and an endpoint of its own for the broker and
  for every server.
- The runs of whole systems contain packets shorter than 2^31 bytes only: calls whose requests fit, and
  services whose results fit whenever the request did. From that length on
  server/unpack_marshal_call.c:15 and broker/unpack_service_registration_buffer.c:5 take the length
  for a negative `int`; the members that model these functions have the outcome `Abort` there. The
  `int` in which common/common.c:82-96 and common/common.c:117-134 keep the counts of `netReadn` and
  `send` is not modelled; the framing lemmas are about the lengths alone.
- Interface files declare no function twice, and their stubs compile: no parameter has the name of a
  variable, type or function that a stub uses (`Stubs.IsTaken`). In runs of whole systems no parameter
  hides a name that a stub takes from the scope around it either (`Stubs.ServerClear`,
  `Stubs.ClientClear`); what happens otherwise is the first point below.
- Leaving the program (`exit`, `netError`) and undefined behaviour (reading an unset pointer
  or the part of a buffer that a short read left unset, writing past an allocation, taking a
  non-string for a string) are one outcome, `Abort`.
- Some allocations in the source are one byte short of what is written; the intended size is modelled.
- Every registration makes the broker format SQL statements of far more than 80 characters into
  `char qry[80]` (broker/register_service.c:74-98). The model has the reads of the record's fields that
  this takes, but neither the statements nor the overflow: what is proved of the broker holds as far as
  the overflow does no harm.

## What the proofs found

- Generated code uses names of its own inside the scope of the parameters' names. A parameter called
  `message_id`, `operation`, `broker_address` or `broker_port` replaces the id, the operation or the
  destination of the server's response by the argument, and one called `params` is read before it is
  set. The response carries the request's id and operation to the broker, for every id and every
  argument list, if and only if no parameter has one of these names (`Rpc.CarriesExactly`). On the
  client's side the same holds of `broker_address`, `broker_port` and `wait_response_port`
  (`Client.WellAddressedExactly`). A call of `int f(int message_id);` stops the broker
  (`Sample.HiddenIdStopsBroker`). A parameter called `verbose` only decides about printing.
- A negative `int` result reaches the client as 0: `get_hdr_int` looks at non-negative integers only
  (`Rpc.RpcTransparency`, `Common.IntegerTransfer`; `diffirence(578, 200)` in `Sample.DifferenceLost`).
- A negative `int` argument crashes the server: it leaves a NULL in the parameter vector and the
  generated getter reads through it (`Rpc.GettersRead`, `Rpc.ExactlyOneAnswer`). In a run, the servers
  that crash are exactly those that such a request reaches once they are registered
  (`History.DiesExactly`; `add(-1, 2)` in `Sample.NegativeArgumentKills`).
- A format with a `%` that is not followed by `d` or `s` announces more parameters than it packs, and
  no server ever answers the request (`Formats.LoopsAgree`, `Rpc.CutOffRequestUnanswered`).
- An empty name in the table of services is counted but not packed, so the broker never sees the
  array and keeps a record whose services were never written (`Registrations.EmptyNameLosesServices`).
  It reads them while it formats the statements of that very registration, before any ACK: in a run the
  broker fails if and only if such a registration reaches it (`Theorems.BrokerFailsExactly`,
  `Exchanges.BrokerStopped`). If it got past that, the next search to come to the record would fail too
  (`Registrations.EmptyNameStopsBroker`).
- An empty packet cannot be received: reading zero bytes counts as a failure (`Framing.FrameRoundTrip`).
- A client takes whatever packet arrives next, without comparing ids. When clients wait for one answer
  before the next call, the answer always has the id and the operation of the call, and is readable
  (`Clients.EveryReadSucceeds`). It is the answer to that very call if and only if calls with the same
  id and operation come from the same client or have, at every server that serves the operation,
  results that read the same (`Exactness.OwnAnswersExactly`); otherwise some run hands one caller
  the result of another (`Exchanges.Crosstalk`; `add(20, 199)` reads 3 in `Sample.WrongSum`). Nothing
  in the source seeds `rand()`, so two client processes draw the same ids.

Code and documentation disagree in places; the model follows the code. common/protocol.h:24-29 puts
`service-name` last and shows `reply-port` as a number; the code packs `service-name` before
`services-count` and the port as a string. common/protocol.h:49 shows a reply as an array; the code
packs one value. A registration carries no `message-id`, so its acknowledgement carries 0.

## Model

| member | source | states |
|---|---|---|
| MsgPack.BigEndianRoundTrip | common/common.c:120-128 | a number that fits w bytes survives the conversion to w bytes and back; which bytes they are is ToBEDigit, and how they are read FromBESplit |
| MsgPack.ToBEDigit | common/common.c:120-124 | byte i of the w bytes of n is n / 256^(w-1-i) mod 256: most significant byte first |
| MsgPack.MostSignificantFirst | common/common.c:120-124 | in four bytes: n / 2^24, n / 2^16 mod 256, n / 2^8 mod 256, n mod 256 |
| MsgPack.FromBESplit | common/common.c:83 | reading bytes, what comes first weighs 256^(number of bytes behind it) more |
| MsgPack.FourBytes | common/common.c:83 | four bytes are read with the weights 2^24, 2^16, 2^8 and 1 |
| MsgPack.EncodedInt | common/common.c:152-158 | every 32-bit int, byte for byte: 00 to 7f, cc, cd and ce when it is not negative, e0 to ff, d0, d1 and d2 when it is |
| MsgPack.EncodedStr | common/common.c:169-176 | every string, byte for byte: a0 to bf, d9, da or db with its length, then its characters |
| MsgPack.EncodedArrayHead | client/pack_client_request_data.c:48 | arrays start with 90 to 9f, dc or dd and the number of elements |
| MsgPack.EncodedMapHead | common/common.c:153-171 | maps start with 80 to 8f, de or df and the number of pairs |
| MsgPack.EncodedContainers | client/pack_client_request_data.c:48-68 | an array or a map is its head and its elements, in order |
| MsgPack.ReadOneByte | common/common.c:303-321 | what each tag that stands alone is read as: 00 to 7f, e0 to ff, nil, false, true, and c1 as a parse error |
| MsgPack.ReadInt | common/common.c:303-321 | cc to cf are read as unsigned, d0 to d3 in two's complement |
| MsgPack.ReadStr | common/common.c:303-321 | a0 to bf, d9, da and db are read as strings of the length given |
| MsgPack.ReadContainer | common/common.c:303-321 | 90 to 9f, dc, dd and 80 to 8f, de, df are read as arrays and maps of as many objects, or pairs of objects, as follow |
| MsgPack.ReadOther | common/common.c:303-321 | floats, binary data and extensions are skipped with exactly the bytes that belong to them |
| MsgPack.ShortestHeads | common/common.c:152-176 | the int, str, array and map heads the packers write are never longer than another head with the same meaning |
| MsgPack.EncodeParse | common/common.c:152-176 | every packable object is read back whole from the front of any buffer, in every width of every format family |
| MsgPack.ParsePrefix | common/common.c:303-321 | cutting a buffer behind an object changes nothing; cutting it inside the object makes the unpacker ask for more, never report an error |
| MsgPack.ParseExtends | common/common.c:303-321 | encodings are prefix-free: what follows an object cannot change how it is read |
| MsgPack.TooFewObjects | client/pack_client_request_data.c:48-68 | a container that announces more elements than follow is never completed |
| MsgPack.StreamRoundTrip | common/common.c:303-321 | reading a packed list of objects gives that list and uses the buffer to its last byte |
| MsgPack.WholeWithinMeaning | common/common.c:303-321 | the count used by Truncation is exactly the number of leading objects whose encodings lie within the first k bytes |
| MsgPack.Truncation | common/common.c:303-328 | any byte prefix of a packed stream shows exactly its whole leading objects, in order, and is never malformed |
| Common.PackMapInt | common/common.c:152-158 | appends the byte 81, the key as a string and the value as an int, which is the encoding of a one-pair map, to what was packed before |
| Common.PackMapStr | common/common.c:169-176 | appends 81, the key and the value, both as strings |
| Common.HeaderLayout | common/common.c:152-176 | the packet of any header is 81, its name and its value |
| Common.ExtractHeaderExactly | common/common.c:221-247 | an object is a header if and only if it is a map of one pair whose key is a string of at most 19 bytes; its name ends at the first NUL |
| Common.ReqTypeExactly | common/common.c:255-286 | the type of a packet is the non-negative int of its first object, which must be a header called request-type; a packet whose first object cannot be read has type 4 |
| Common.HdrIntExactly | common/common.c:303-328 | get_hdr_int gives up if and only if the packet holds a parse error or an object that is no header |
| Common.FirstStrStops | common/common.c:347-366 | get_hdr_str and get_op_name never look at what follows the first match |
| Common.MalformedPacket | common/common.c:339-417 | without a match before a parse error both abort |
| Common.GetHdrInt | common/common.c:295-330 | the loop over offsets computes: abort on a bad object or a parse error, else the last non-negative integer under the name, else 0 |
| Common.GetHdrStr | common/common.c:339-374 | the loop computes the first string under the name; without one the result is an unset pointer |
| Common.GetOpName | common/common.c:381-417 | the loop computes the first string under op, NULL without one, abort on a parse error |
| Common.HeadersRead | common/common.c:303-321 | the headers of any well-formed packet are read back as they were packed, also when an unfinished object follows |
| Common.LastIntMeaning | common/common.c:306-321 | get_hdr_int gives the value of the last match, 0 exactly when there is none |
| Common.FirstStrMeaning | common/common.c:347-366 | get_hdr_str and get_op_name give the first match, nothing when there is none |
| Common.LookupUnique | common/common.c:295-417 | under a name that occurs once, all three lookups give the value of that header, wherever it stands |
| Common.LookupMissing | common/common.c:295-417 | under a name that does not occur they give 0, an unset pointer and NULL |
| Common.LookupPermutation | common/common.c:295-417 | with distinct names no lookup depends on the order the headers were packed in |
| Common.IntegerTransfer | common/common.c:295-330 | a 32-bit int under a unique name arrives unchanged if and only if it is not negative, else as 0 |
| Common.CutOff | client/pack_client_request_data.c:31-68 | headers followed by one whose array is too short are read as the headers alone |
| Framing.SendData | common/common.c:114-142 | appends |packet| / 2^24, / 2^16, / 2^8 and mod 256, in that order, and the packet's bytes to the connection |
| Framing.GetResponse | common/common.c:78-103 | takes off the front of the connection four bytes, most significant first, and as many bytes as they say, or fails on a short read or an empty packet |
| Framing.FrameLayout | common/common.c:114-142 | the frame of any packet that fits is its length in four bytes, most significant first, and the packet |
| Framing.ShortFrame | common/common.c:82-98 | a frame cut anywhere is not received |
| Framing.FrameRoundTrip | common/common.c:78-142 | a framed packet is received unchanged, with the rest of the stream left in place, if and only if it is not empty and shorter than 2^32 bytes |
| Framing.FramingRoundTrip | common/common.c:78-142 | any sequence of such packets written to one connection is received as that sequence with nothing left over |
| Client.CountArgs | client/pack_client_request_data.c:41-46 | the first loop counts every percent sign |
| Formats.CountPercentMeaning | client/pack_client_request_data.c:41-46 | its result is the number of positions that hold a percent sign |
| Formats.WalkTable | client/pack_client_request_data.c:50-68 | what the packing loop does at each character: %d takes an int, %s a string, any other directive nothing, and a missing argument, one of the other kind or a percent sign at the end is undefined |
| Formats.PackFormat | client/pack_client_request_data.c:50-68 | the packing loop writes the elements its directives select, in order, and fails where va_arg would be undefined |
| Formats.LoopsAgree | client/pack_client_request_data.c:41-68 | the two loops agree on the number of elements if and only if every percent sign is followed by d or s; otherwise the count is too big |
| Formats.WalkDirectives | client/pack_client_request_data.c:50-68 | a format that names the types of the arguments packs all of them in order |
| Client.PackClientRequestData | client/pack_client_request_data.c:18-70 | packs the five headers of Packets.RequestLayout, type 0 first, then the params array with the announced count and the selected arguments |
| Client.WholeRequest | client/pack_client_request_data.c:18-70 | with a well-formed format the packet is six whole headers, the last one the array of exactly the packed arguments |
| Client.ClientRequestWire | client/generate_proxy.pl:84-99 | the client stub of any signature packs its own arguments, all of them, in order; where it sends them and awaits the answer is what the names of the broker and the port mean among its parameters |
| Client.SendCall | client/generate_proxy.pl:84-94 | a generated client function writes that packet, framed, to a connection of its own, with the destination and the port to wait on that its names resolve to |
| Client.WellAddressedExactly | client/generate_proxy.pl:84-94 | for every id, endpoint and argument list the call goes to the broker and its answer is awaited where the request says, if and only if no parameter hides one of the client's globals |
| Client.CallContextExactly | client/generate_proxy.pl:84-94 | address, port and wait port of a call are the parameter of that name if there is one, and the global otherwise |
| Client.AwaitReply | client/send_and_receive.c:45-54 | the client takes one packet off the connection and its result is the accessor's reading of it |
| Generators.ReadParams | client/generate_proxy.pl:29-53 | the token loop with its shifted name index, followed by the grep, yields the even tokens as types, the stripped odd ones as names, and the format of the types |
| Generators.SplitMeaning | client/generate_proxy.pl:30 | the split distributes over every white-space character |
| Generators.OneWord | client/generate_proxy.pl:30 | a run of characters without white space is one token |
| Generators.TypeTable | client/generate_proxy.pl:40-60 | char* gives %s and get_hdr_str, int gives %d and get_hdr_int, every other type nothing |
| Generators.GenerateServerStub | server/generate_proxy.pl:27-83 | the server script emits one getter per type, aligned with its name and slot, and the response directive of the return type |
| Generators.GenerateClientStub | client/generate_proxy.pl:26-99 | the client script emits the request format, the argument list and the accessor of the return type |
| Generators.SignatureRecovered | client/generate_proxy.pl:29-53 | for every printed parameter list the scripts recover the declared types and names, in order and aligned |
| Generators.GeneratorsAgree | server/generate_proxy.pl:53-83 | for every signature the client's i-th directive is %d for an int and %s for a char* and fills the slot the server's i-th getter reads, both use the same argument list, and the response directive fits the client's accessor |
| Stubs.NamedArgsInOrder | server/generate_proxy.pl:63-77 | variables with distinct names, asked for by name in order, give back their values in order |
| Stubs.NamesInUse | server/generate_proxy.pl:74-81 | the names that generated code goes on to use: message_id, operation, broker_address, broker_port and params in a block, the last two of the broker and wait_response_port in a client function |
| Server.ServiceRegisterWithBroker | server/service_register_with_broker.c:26-60 | counting up and packing down the NULL-terminated table produces the registration packet |
| Server.PackNames | server/service_register_with_broker.c:51-60 | the countdown loop packs the non-empty names from the last to the first and never leaves the table |
| Server.PackedNamesMeaning | server/service_register_with_broker.c:51-60 | as many names are packed as announced if and only if none is empty; they are then the table reversed |
| Broker.UnpackServiceRegistrationBuffer | broker/unpack_service_registration_buffer.c:4-87 | the loop computes the record as a fold over the headers; every array write is inside the allocated count or the outcome is an abort, and so it is when the length does not fit an int |
| Broker.StoreServices | broker/unpack_service_registration_buffer.c:53-77 | writes the announced services over the front of the array and keeps the rest; fails exactly when they do not fit or are not strings |
| Broker.RegHdrTable | broker/unpack_service_registration_buffer.c:29-80 | what each header does to the record: sender-address, reply-port and service-name are stored, services-count allocates, an array of any name is stored, everything else is skipped |
| Registrations.RegistrationWire | server/service_register_with_broker.c:26-60 | any table is sent as the registration message of the table reversed |
| Messages.Shape | server/service_register_with_broker.c:40-60 | every packet is its readable headers, followed by an unfinished one exactly for a registration with an empty name |
| Packets.RequestLayout | client/pack_client_request_data.c:24-70 | the packet of any request, byte by byte: request-type 0, message-id, sender-address, reply-port, op, params |
| Packets.ResponseLayout | server/pack_client_response_data.c:20-56 | the packet of any response: request-type 1, message-id, op, reply |
| Packets.RegistrationLayout | server/service_register_with_broker.c:26-60 | the packet of any registration without empty names: request-type 2, sender-address, reply-port, service-name theServiceName, services-count, services |
| Packets.AckLayout | broker/register_service.c:33-39 | an acknowledgement is 28 bytes: request-type 3, message-id 0 |
| Packets.LeadingBytes | common/protocol.h:74-80 | every packet starts with 81 ac, request-type and its type: 00, 01, 02 or 03 |
| Packets.FrameLimit | broker/unpack_service_registration_buffer.c:5 | the messages of whole runs are those whose packets are shorter than 2^31 bytes |
| Packets.KnownHeader | common/common.c:169-176 | {op: add} is 81 a2 6f 70 a3 61 64 64 |
| Packets.KnownRequest | client/client.c:32 | the packet of add(20, 199) for any id from 2^16 on and any short endpoint |
| Packets.KnownRegistration | server/service_register_with_broker.c:26-60 | the packet of any table of a few short names |
| Registrations.RegistrationRoundTrip | broker/unpack_service_registration_buffer.c:20-86 | the broker's record lists the table reversed, with the server's address, port and name, if and only if no name is empty and the packet's length fits an int; when it fits, count, address and port are right in any case |
| Registrations.EmptyNameLosesServices | server/service_register_with_broker.c:40-60 | with an empty name in the table the record has the announced number of services, none of them written |
| Registrations.RegistrationStopsBroker | broker/register_service.c:64-103 | the broker fails at the registration of a table if and only if it has an empty name or its packet's length does not fit an int |
| Registrations.RouteTrips | broker/find_server_for_request.c:21-40 | the search runs into undefined behaviour if and only if it comes to a record with an unwritten service before a match |
| Registrations.EmptyNameStopsBroker | broker/find_server_for_request.c:21-40 | were such records in the repository, the broker would fail at a request if and only if no record before the first of them lists its operation |
| Server.PackClientResponseData | server/pack_client_response_data.c:14-56 | packs the three headers of Packets.ResponseLayout, type 1 first, and a reply header whose value is what the format selects |
| Server.FillParams | server/unpack_marshal_call.c:50-65 | the parameter vector has a string or an int per element and stays NULL for every other kind, negative ints among them |
| Server.SlotKinds | server/unpack_marshal_call.c:50-65 | strings up to their NUL and non-negative ints fill their slot; negative ints, arrays, maps and all else leave it NULL |
| Server.HandleHdrTable | server/unpack_marshal_call.c:31-71 | what each header does: op sets the operation, message-id the id, an array of any name starts the call, everything else is skipped |
| Server.ParamsTooEarly | server/unpack_marshal_call.c:31-71 | parameters that precede the operation make the server compare an unset pointer |
| Server.ContextExactly | server/generate_proxy.pl:74-81 | id, operation, address and port of a response are the variable of that name in the block if there is one, and those of the request and the broker otherwise |
| Server.ServerTypes | server/server.c:150-155 | packets of type 3 register the server, those of type 0 are served if it is registered, all others ignored |
| Server.CallMarshalResponseSend | server/generate_proxy.pl:73-83 | the generated blocks, one after the other, send the responses of those whose name is the operation; inside a block its variables hide message_id, operation, broker_address and broker_port |
| Server.UnpackMarshalCallSend | server/unpack_marshal_call.c:15-76 | the header loop sends exactly the responses the specification lists, in order, or aborts where it does; a length that does not fit an int aborts |
| Server.ServerProcess.ReadAndProcessData | server/server.c:126-156 | one packet: an ACK sets isRegistered, a request is served only when it is set, everything else leaves the server as it was |
| Rpc.GettersRead | server/generate_proxy.pl:63-70 | the getters give back exactly the arguments of a typed call, and crash exactly when one is a negative int or called params |
| Rpc.CarriesExactly | server/generate_proxy.pl:74-81 | for every broker, id and receivable argument list the stub's response carries the request's id and operation and the service's result to the broker, if and only if no parameter is called message_id, operation, broker_address, broker_port or params |
| Rpc.RequestDispatched | server/unpack_marshal_call.c:31-71 | since message id and operation precede the params array, a request is dispatched once, with its own id, operation and parameters |
| Rpc.OneBlockAnswers | server/unpack_marshal_call.c:31-71 | whatever its parameters are called, a request is answered by the one block of its operation |
| Rpc.ExactlyOneAnswer | server/unpack_marshal_call.c:40-69 | with distinct operation names and no hidden name a server answers a typed request with exactly one packet, to the broker: the request's id and operation and the result of the service on the request's arguments; it crashes exactly when an argument is negative or the packet's length does not fit an int |
| Rpc.NoAnswer | server/generate_proxy.pl:73-83 | an operation the interface does not declare gets no answer at all |
| Rpc.ReplyRead | client/generate_proxy.pl:54-60 | the client's accessor reads the result out of the response, 0 for a negative int |
| Rpc.RpcTransparency | client/generate_proxy.pl:84-99 | for every signature over int and char* that hides no name, and all receivable arguments whose request fits an int and whose response fits a frame, the client sends to the broker, the server answers to the broker once, and the client reads the service's own result, if and only if the result is not a negative int |
| Rpc.CutOffRequest | client/pack_client_request_data.c:31-68 | a request packed by an ill-formed format is read as its first five headers |
| Rpc.CutOffRequestUnanswered | server/unpack_marshal_call.c:31-71 | no server ever answers such a request, whatever its length |
| Broker.BrokerProcess.RegClntReq | broker/register_client_request.c:4-24 | appends one entry to the pending list and changes nothing else |
| Broker.BrokerProcess.FindServerForReq | broker/find_server_for_request.c:6-43 | the nested search gives the endpoint the route specification names, NULL when there is none, and changes no list |
| Broker.RouteMeaning | broker/find_server_for_request.c:21-40 | the search ends at the first registration that lists the operation, and finds nothing if and only if none does |
| Broker.RouteStable | broker/find_server_for_request.c:21-40 | later registrations never change an existing route |
| Broker.BrokerProcess.FindClientForResponse | broker/find_client_for_response.c:4-36 | deletes exactly the first entry with the packet's id and operation, keeps all others in order and copies its endpoint; changes nothing when there is none |
| Broker.BrokerProcess.SendSvcReqAck | broker/register_service.c:18-55 | the ACK goes to the address and port in the registration itself and carries its message id |
| Broker.BrokerProcess.FormatStatements | broker/register_service.c:81-95 | formatting reads name, address, port and every service of the record, and fails exactly when one of them was never written |
| Broker.BrokerProcess.RegSvcReq | broker/register_service.c:64-103 | the record is appended, then formatted, then acknowledged, and nothing else changes |
| Broker.BrokerProcess.HandleServiceRequest | broker/broker.c:194-205 | a request is entered first, then forwarded unchanged to the routed server, or to nobody |
| Broker.BrokerProcess.ReadData | broker/broker.c:152-216 | one packet from the connection performs one step of the three-way broker specification on both lists |
| Broker.BrokerTypes | broker/broker.c:194-215 | packets of type 0 are handled as requests, of type 1 as responses, of type 2 as registrations; all others, and what cannot be read, change nothing |
| Messages.RequestAtBroker | broker/broker.c:194-205 | the packet of any request adds one entry with its sender, id and operation and is forwarded byte for byte along the route |
| Messages.ResponseAtBroker | broker/broker.c:208-211 | the packet of any response takes out the first entry with its id and operation and is forwarded byte for byte to the endpoint stored there |
| Messages.UnpackRegistrationMsg | broker/unpack_service_registration_buffer.c:20-86 | the packet of any registration unpacks to its own address, port and services if its length fits an int |
| Messages.RegistrationAtBroker | broker/broker.c:206-207 | the packet of any registration whose length fits an int is appended whole; it is acknowledged to the server it came from if no name is empty, and else the broker fails |
| Messages.AckCarries | broker/register_service.c:33-39 | an ACK is recognised as one and gives back the message id it was made for |
| Steps.StepKept | broker/broker.c:194-215 | every step of every node keeps the whole invariant |
| Steps.RunInv | broker/broker.c:152-216 | the invariant holds after every run of any number of clients, servers and packets |
| Steps.ResponseFinds | broker/find_client_for_response.c:33-35 | a response in flight to the broker always has a pending entry, so the fall-through with an unset destination is never taken |
| System.StepInLockStep | broker/broker.c:152-216 | one step on bytes is the encoding of the same step on messages, whichever node takes it |
| System.Refinement | broker/broker.c:152-216 | after every run the system on bytes is exactly the encoding of the system on messages |
| Theorems.BrokerFailsExactly | broker/register_service.c:81-95 | in a run, with interfaces that hide no name, the broker exits or runs into undefined behaviour of that the model has if and only if some step delivers to it the registration of a table with an empty name |
| Theorems.NeverCrashes | broker/find_client_for_response.c:33-35 | so no run of servers without empty names makes it fail, in particular not by a response without a pending entry |
| History.DiesExactly | server/unpack_marshal_call.c:54-64 | the servers that crash in a run are exactly those to which, once registered, some step delivered a request they implement with a negative int argument |
| History.AllSurvive | server/unpack_marshal_call.c:54-64 | in a run without negative arguments and empty names, with interfaces that hide no name, neither the broker nor any server crashes |
| Ledger.Conservation | broker/broker.c:194-211 | for each id and operation: pending entries equal requests on their way to servers, plus responses on their way to the broker, plus the steps in which the broker read a request that no record listed, plus the steps in which a request reached a server that was dead, not registered, did not implement it or died of it; and the calls made equal requests on their way in, pending entries, responses on their way to clients and the steps in which a response reached one |
| Ledger.StepsOfComplete | broker/broker.c:194-215 | the steps that these laws count are all steps of their kind and no others |
| Theorems.KnowledgeGrows | broker/register_service.c:72-103 | over any continuation of a run the repository only grows, isRegistered never reverts and no route changes |
| Theorems.RegisteredIsKnown | server/server.c:150-155 | a server that takes itself for registered, and one with an ACK on its way, is in the broker's repository |
| History.RegisteredByAck | server/server.c:150-151 | a server is registered if and only if an earlier step of the run delivered an ACK to it |
| History.ResponsesAreEarned | server/server.c:150-155 | behind every response, in flight or arrived, a step of the run had a server answer a call of the run with it, a still earlier step had delivered an ACK to that very server, and by then the broker had its record, which advertises the operation |
| Theorems.ForwardedToAdvertiser | broker/find_server_for_request.c:17-42 | a forwarded request is on its way to a server that advertised its operation, the one the broker still routes to |
| Ledger.OldestFirst | broker/find_client_for_response.c:17-31 | first come, first served: for each id and operation the n-th response that the broker reads comes behind the n-th request, takes that request's entry and goes to the client it was from |
| Theorems.EndToEnd | client/generate_proxy.pl:84-99 | every packet that reaches a client answers a call of the run with the service's result on that call's own arguments, and reaches an endpoint that made a call with that id and operation |
| Theorems.CorrectDelivery | broker/find_client_for_response.c:17-31 | when calls with the same id and operation come from one client or have results that read the same, every packet reaches a caller whose call it answers |
| Theorems.UniqueKeysToldApart | client/pack_client_request_data.c:25 | ids that are unique per operation meet this condition |
| Exactness.DeliveryExactly | broker/find_client_for_response.c:17-31 | for any set of calls and any servers: every run that makes only these calls delivers every packet to a caller whose call it answers, if and only if the set meets the condition |
| Theorems.AtMostOnce | broker/find_client_for_response.c:29 | with unique ids no two packets with the same id and operation reach clients |
| Theorems.NoCallAnsweredTwice | broker/find_client_for_response.c:17-31 | with unique ids, on the wire, no two packets that reach clients answer the same call |
| Balances.EachClientSettled | broker/broker.c:194-211 | for each client, id and operation, its calls equal its requests on their way in, its pending entries, and the answers on their way to it or arrived |
| Balances.AnswersBounded | server/unpack_marshal_call.c:66-69 | for each id and operation, requests that can be answered and answers, in flight or arrived, never outnumber the answerable calls |
| Balances.TallyMeaning | broker/broker.c:194-211 | the counts of these two balances are numbers of positions |
| History.AnsweredOnce | server/unpack_marshal_call.c:66-69 | no call is answered twice, whatever ids are drawn: the n-th step in which a request is answered comes after the n-th step that made this very request |
| History.MakingAndAnswering | server/unpack_marshal_call.c:66-69 | its two lists hold exactly the steps that make the request and exactly those that answer it |
| Clients.TurnsKept | client/send_and_receive.c:73-86 | clients that wait are answered in turn whatever ids they draw: the n-th packet has the id and operation of the n-th call, and at most the last call is open |
| Clients.ArrivedAll | client/send_and_receive.c:45-54 | its packets are all that reached the client |
| Clients.CallStepsComplete | client/send_and_receive.c:73-86 | its calls are all that the client made |
| Clients.EveryReadSucceeds | client/send_and_receive.c:73-86 | under the same premise the function of the n-th call reads from the n-th packet a result that some server computed for a call with this id and operation; no read fails |
| Clients.NobodyFails | client/generate_proxy.pl:84-99 | when clients wait, no argument is negative, no name is empty and no parameter hides a name, broker and servers survive and every client function that gets a packet returns |
| Exactness.OwnContentKept | client/send_and_receive.c:73-86 | when clients wait and one client has an id and operation to itself, all that is in flight for them is about its last call |
| Exactness.OwnAnswer | client/send_and_receive.c:73-86 | when clients wait and the condition holds, the n-th packet to reach a client answers its n-th call, with the service's result on that call's arguments |
| Exactness.OwnAnswersExactly | client/send_and_receive.c:73-86 | for any set of calls and any servers: in every run of waiting clients that makes only these calls each packet answers the call its client waits for, if and only if the set meets the condition |
| Exchanges.ExchangeCompletes | broker/broker.c:152-216 | from start-up, registration, ACK, call and answer take eight steps, after which the client holds its own result and nothing is pending or in flight |
| Exchanges.BrokerStopped | broker/register_service.c:81-95 | two steps of any server whose table has an empty name stop the broker, and no ACK is sent |
| Exchanges.ServerKilled | server/unpack_marshal_call.c:54-64 | a call with a negative argument kills the registered server that implements it, gets no answer and stays pending |
| Exchanges.Crosstalk | client/pack_client_request_data.c:25 | when two different clients draw the same id and the results read differently, a run exists in which the first is handed the second one's answer, which is no answer to its own call |
| Services.OwnCfgIsValid | server/server_interface.c:5-39 | the repository's own server, with all seven operations, meets every premise of the theorems |
| Services.HeaderDeclares | server/server_interface.h:13-40 | the seven signatures, in the order of the header file |
| Services.OwnRegistrationPacket | server/server_interface.c:5-6 | the registration packet of the repository's server, to the byte, for any short endpoint |
| Services.TextResults | server/server_interface.c:7-26 | getServerDate gives 20 jan 2012, getBrokerName broker v1, sayHello sayHello() |
| Services.SumResults | server/server_interface.c:19-39 | add gives one + two, diffirence two - one, wherever that is an int |
| Services.EchoResult | server/server_interface.c:14-17 | echo gives the string backwards |
| Services.DogResult | server/server_interface.c:29-35 | sayDog gives its four strings joined in order |
| Services.JoinedAppend | server/server_interface.c:30-32 | joining distributes over concatenation, so the order of the parts is kept |
| Services.AnswerFits | server/server_interface.c:15-35 | a string result no longer than the encoded arguments, as those of echo and sayDog, fits whenever the request does |
| Services.ModestFits | common/common.c:114-142 | every message of up to six whole headers with strings of up to 64 KiB and arrays of up to 128 elements fits |
| Sample.SumReturned | client/client.c:32 | the client's add(20, 199) returns 219, from start-up to the bytes it reads |
| Sample.AddReturned | server/server_interface.c:19-21 | add of any two non-negative ints whose sum is an int returns the sum |
| Sample.DifferenceReturned | server/server_interface.c:37-39 | diffirence of any two non-negative ints returns two - one, and 0 when that is negative |
| Sample.TextsReturned | client/client.c:29-31 | the client reads 20 jan 2012 from getServerDate() and broker v1 from getBrokerName() |
| Sample.HelloReturned | client/client.c:33 | it reads sayHello() from sayHello(age, name) |
| Sample.DogReturned | client/client.c:34 | it reads one two three four, joined in this order, from sayDog(one, two, three, four) |
| Sample.EchoReturned | client/client.c:30 | echo of any string that fits returns the string reversed |
| Sample.DifferenceLost | server/server_interface.c:37-39 | diffirence(578, 200) is -378 at the server and 0 at the client |
| Sample.NegativeArgumentKills | server/server_interface.c:19-21 | add(-1, 2) kills the server |
| Sample.WrongSum | client/client.c:32 | a client that calls add(20, 199) reads 3 when another one calls add(1, 2) under the same id |
| Sample.HiddenIdStopsBroker | server/generate_proxy.pl:73-80 | for int f(int message_id) and any id other than v: the request of f(v) is sent, entered and forwarded, the server's response carries v as its id, and the broker aborts on it |

## Left out

- Sockets, select, accept, timeouts, threads and connection failures: a connection is a byte sequence, the network a bag of packets.
- Whether a peer is listening when a packet is sent, and that packets do arrive in the end: the theorems are about safety; Exchanges.ExchangeCompletes shows one run that completes.
- A network that loses or duplicates packets, and nodes that do not follow the protocol.
- Broker.BrokerProcess.SendSvcReqAck: the retry loop is not modelled, because `send` is taken to succeed.
- Broker.BrokerProcess.RegSvcReq: the SQL statements, the buffer overflow in formatting them (see Assumptions) and printing are not modelled; what formatting reads is.
- Theorems.BrokerFailsExactly: runs contain interfaces without hidden names and packets shorter than 2^31 bytes; Rpc.CarriesExactly and Rpc.ExactlyOneAnswer say, call by call, what happens otherwise. Restarting a broker or a server that failed is not modelled.
- Generators.SignatureRecovered: parameter lists are those printed as type, space, name and separated by a comma and a space; the regular expression that splits a declaration into its three parts is not modelled, nor are types other than int and char* and functions that return nothing.
- Server.UnpackMarshalCallSend: sending is returning the list of responses; the connection per response is not modelled.
- Broker.BrokerProcess.ReadData: likewise, the packets to send are returned; printing is not modelled.
- Client.PackClientRequestData: the id drawn by `rand()` and the client's address and port are parameters.
- Server.FillParams: the eight bytes stored into a slot of `sizeof(int)` bytes are modelled as the int the getter reads back.
- MessagePack's nesting limit and memory exhaustion in the library, and the contents of nil, boolean, float, binary and extension objects.
- Heap layout, frees, terminator bytes and dangling pointers: strings are sequences that live as long as they are used.
- unpack_data, diagnostics, configuration files, command lines and the programs under doc/.
- The bodies of the services: any function from operation and arguments to a result of the declared type; the repository's own seven are in Services.
