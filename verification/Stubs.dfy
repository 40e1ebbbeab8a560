/**
What a signature of server_interface.h promises at run time, and how generated code finds its
variables: by name.
*/
module Stubs {
  import opened MsgPack
  import opened Common
  import opened Formats
  import opened Generators

  // ---------- Names in generated code ----------

  /** What the generated code takes, inside a block or a function, from the scope around it. */
  const MESSAGE_ID_VAR: bytes := "message_id"
  const OPERATION_VAR: bytes := "operation"
  const BROKER_ADDRESS_VAR: bytes := "broker_address"
  const BROKER_PORT_VAR: bytes := "broker_port"
  const PARAMS_VAR: bytes := "params"
  const WAIT_PORT_VAR: bytes := "wait_response_port"

  /** Names that, given to a parameter, stop one of the two stubs from compiling. */
  predicate IsTaken(name: bytes)
  {
    name in {"response", "pkt", "sbuf", "result", "Packet", "msgpack_sbuffer", "msgpack_sbuffer_destroy",
             "pack_client_response_data", "unpack_data", "send_req", "pack_client_request_data", "send_and_receive"}
  }

  /** The function that a client stub of this return type takes its result with. */
  function AccessorName(ret: CType): bytes
  {
    if ret.CInt? then "get_hdr_int" else "get_hdr_str"
  }

  /** Names that, given to a function, do. */
  predicate IsHidden(name: bytes)
  {
    name in {MESSAGE_ID_VAR, OPERATION_VAR, BROKER_ADDRESS_VAR, BROKER_PORT_VAR, PARAMS_VAR, WAIT_PORT_VAR,
             "verbose", "response", "pkt"}
  }

  /** A prototype the scripts can read and whose stubs a C compiler accepts. */
  ghost predicate GoodSig(sig: Sig)
  {
    && IsC(sig.name) && sig.name != [] && !IsHidden(sig.name)
    && GoodParams(sig.params) && |sig.params| < 0x1000_0000
    && (forall p | p in sig.params :: !IsTaken(p.name) && p.name != sig.name && p.name != AccessorName(sig.ret))
    && forall i, j | 0 <= i < j < |sig.params| :: sig.params[i].name != sig.params[j].name
  }

  /** No parameter hides a name that the server's block goes on to use. */
  predicate ServerClear(sig: Sig)
  {
    forall p | p in sig.params ::
      p.name !in {MESSAGE_ID_VAR, OPERATION_VAR, BROKER_ADDRESS_VAR, BROKER_PORT_VAR, PARAMS_VAR}
  }

  /** No parameter hides a name that the client's function goes on to use. */
  predicate ClientClear(sig: Sig)
  {
    forall p | p in sig.params :: p.name !in {BROKER_ADDRESS_VAR, BROKER_PORT_VAR, WAIT_PORT_VAR}
  }

  /** The names that generated code goes on to use. */
  lemma NamesInUse(sig: Sig)
    ensures ServerClear(sig) <==> forall p | p in sig.params ::
      && p.name != "message_id" && p.name != "operation" && p.name != "params"
      && p.name != "broker_address" && p.name != "broker_port"
    ensures ClientClear(sig) <==> forall p | p in sig.params ::
      && p.name != "broker_address" && p.name != "broker_port" && p.name != "wait_response_port"
  {
  }

  predicate OfType(a: Arg, ty: CType)
  {
    a.IntArg? == ty.CInt?
  }

  ghost predicate Typed(sig: Sig, args: seq<Arg>)
  {
    |args| == |sig.params| && forall i | 0 <= i < |args| :: OfType(args[i], sig.params[i].ty)
  }

  /** The variable called n, among variables with these names and values. */
  function NamedArg(names: seq<bytes>, values: seq<Arg>, n: bytes): Outcome<Arg>
    requires |names| == |values|
  {
    if names == [] then Abort
    else if names[0] == n then Ok(values[0])
    else NamedArg(names[1..], values[1..], n)
  }

  function NamedArgs(names: seq<bytes>, values: seq<Arg>, wanted: seq<bytes>): Outcome<seq<Arg>>
    requires |names| == |values|
  {
    if wanted == [] then Ok([]) else
    match NamedArg(names, values, wanted[0])
    case Abort => Abort
    case Ok(a) =>
      match NamedArgs(names, values, wanted[1..])
      case Abort => Abort
      case Ok(rest) => Ok([a] + rest)
  }

  /** What a name means in an inner scope: its own variable if there is one, else the outer one. */
  function Resolve(names: seq<bytes>, values: seq<Arg>, n: bytes, outer: Outcome<Arg>): Outcome<Arg>
    requires |names| == |values|
  {
    if n in names then NamedArg(names, values, n) else outer
  }

  function Default(ty: CType): (a: Arg)
    ensures OfType(a, ty)
  {
    if ty.CInt? then IntArg(0) else StrArg([])
  }

  function Defaults(params: seq<Param>): (args: seq<Arg>)
    ensures |args| == |params| && forall i | 0 <= i < |args| :: args[i] == Default(params[i].ty)
  {
    seq(|params|, i requires 0 <= i < |params| => Default(params[i].ty))
  }

  predicate IsDefault(a: Arg)
  {
    a == IntArg(0) || a == StrArg([])
  }

  lemma {:induction false} ResolveDefault(names: seq<bytes>, values: seq<Arg>, n: bytes)
    requires |names| == |values| && n in names && forall a | a in values :: IsDefault(a)
    ensures NamedArg(names, values, n).Ok? && IsDefault(NamedArg(names, values, n).value)
  {
    assert values[0] in values;
    if names[0] != n {
      assert forall a | a in values[1..] :: a in values;
      ResolveDefault(names[1..], values[1..], n);
    }
  }

  lemma {:induction false} NamedArgAt(names: seq<bytes>, values: seq<Arg>, i: nat)
    requires |names| == |values| && i < |names|
    requires forall j | 0 <= j < i :: names[j] != names[i]
    ensures NamedArg(names, values, names[i]) == Ok(values[i])
  {
    if i > 0 {
      assert names[0] != names[i];
      NamedArgAt(names[1..], values[1..], i - 1);
    }
  }

  /** Asking for all the variables, in order, gives all the values, in order. */
  lemma {:induction false} NamedArgsInOrder(names: seq<bytes>, values: seq<Arg>, k: nat)
    requires |names| == |values| && k <= |names|
    requires forall i, j | 0 <= i < j < |names| :: names[i] != names[j]
    ensures NamedArgs(names, values, names[k..]) == Ok(values[k..])
    decreases |names| - k
  {
    if k < |names| {
      NamedArgAt(names, values, k);
      NamedArgsInOrder(names, values, k + 1);
      assert names[k..][1..] == names[k + 1..];
      assert [values[k]] + values[k + 1..] == values[k..];
    }
  }

  /** The client's generated format is the one that names the types of the arguments. */
  lemma {:induction false} FormatOfTypes(params: seq<Param>, args: seq<Arg>)
    requires |args| == |params| && forall i | 0 <= i < |args| :: OfType(args[i], params[i].ty)
    ensures TypesFormat(ParamTypes(params)) == Directives(args)
  {
    var types := ParamTypes(params);
    if params == [] {
      assert types == [];
    } else {
      var n := |args| - 1;
      FormatOfTypes(params[..n], args[..n]);
      assert types[..n] == ParamTypes(params[..n]);
      DirectivesAppend(args[..n], args[n]);
      assert args[..n] + [args[n]] == args;
      assert OfType(args[n], params[n].ty);
    }
  }

  lemma {:induction false} DirectivesAppend(args: seq<Arg>, a: Arg)
    ensures Directives(args + [a]) == Directives(args) + Directive(a)
  {
    if args == [] {
      assert args + [a] == [a];
      assert Directives([a]) == Directive(a) + [];
    } else {
      assert (args + [a])[1..] == args[1..] + [a];
      DirectivesAppend(args[1..], a);
    }
  }

  lemma {:induction false} DirectivesAreC(args: seq<Arg>)
    ensures '\0' !in Directives(args) && |Directives(args)| == 2 * |args|
  {
    if args != [] {
      DirectivesAreC(args[1..]);
    }
  }
}
