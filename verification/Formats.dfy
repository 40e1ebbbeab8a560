/**
The printf-like formats that drive both packers: client/pack_client_request_data.c walks a format
twice, once to count and once to pack, and server/pack_client_response_data.c once.
*/
module Formats {
  import opened MsgPack
  import opened Common

  datatype RawArg = IntArg(i: int) | StrArg(s: bytes)

  /** A C argument or result: a 32-bit int or a C string. */
  type Arg = a: RawArg | (if a.IntArg? then IsInt32(a.i) else IsC(a.s)) witness IntArg(0)

  function ArgValue(a: Arg): (v: Value)
    ensures Packable(v)
  {
    match a
    case IntArg(i) => IntValue(i)
    case StrArg(s) => Str(s)
  }

  function ArgValues(args: seq<Arg>): (vs: seq<Value>)
    ensures |vs| == |args| && forall i | 0 <= i < |args| :: vs[i] == ArgValue(args[i])
    ensures forall v | v in vs :: Packable(v)
  {
    seq(|args|, i requires 0 <= i < |args| => ArgValue(args[i]))
  }

  /** The counting loop looks at every character. */
  function CountPercent(fmt: bytes): (n: nat)
    ensures n <= |fmt|
  {
    if fmt == [] then 0 else (if fmt[|fmt| - 1] == '%' then 1 else 0) + CountPercent(fmt[..|fmt| - 1])
  }

  /** It counts every percent sign. */
  lemma {:induction false} CountPercentMeaning(fmt: bytes)
    ensures CountPercent(fmt) == |set i | 0 <= i < |fmt| && fmt[i] == '%'|
  {
    var all := set i | 0 <= i < |fmt| && fmt[i] == '%';
    if fmt == [] {
      assert all == {};
    } else {
      var n, init := |fmt| - 1, fmt[..|fmt| - 1];
      CountPercentMeaning(init);
      var before := set i | 0 <= i < |init| && init[i] == '%';
      assert all == before + if fmt[n] == '%' then {n} else {};
    }
  }

  /**
  The packing loop skips the character behind each '%'. It aborts when va_arg asks for an argument
  that is missing or of the other type, and when a final '%' leads it past the terminator.
  */
  function Walk(fmt: bytes, args: seq<Arg>): Outcome<seq<Arg>>
  {
    if fmt == [] then Ok([])
    else if fmt[0] != '%' then Walk(fmt[1..], args)
    else if |fmt| == 1 then Abort
    else if fmt[1] != 'd' && fmt[1] != 's' then Walk(fmt[2..], args)
    else if args == [] || (fmt[1] == 'd') != args[0].IntArg? then Abort
    else match Walk(fmt[2..], args[1..])
      case Abort => Abort
      case Ok(rest) => Ok([args[0]] + rest)
  }

  /** The packing loop, one character or directive at a time. */
  lemma WalkTable(c: byte, rest: bytes, args: seq<Arg>)
    ensures Walk([], args) == Ok([])
    ensures c != '%' ==> Walk([c] + rest, args) == Walk(rest, args)
    ensures Walk(['%'], args) == Abort
    ensures c != 'd' && c != 's' ==> Walk(['%', c] + rest, args) == Walk(rest, args)
    ensures args == [] ==> Walk("%d" + rest, args) == Walk("%s" + rest, args) == Abort
    ensures args != [] ==>
      var (own, other) := if args[0].IntArg? then ("%d", "%s") else ("%s", "%d");
      && Walk(other + rest, args) == Abort
      && Walk(own + rest, args).Ok? == Walk(rest, args[1..]).Ok?
      && (Walk(rest, args[1..]).Ok? ==> Walk(own + rest, args).value == [args[0]] + Walk(rest, args[1..]).value)
  {
    assert ([c] + rest)[1..] == rest && (['%', c] + rest)[2..] == rest;
    assert ("%d" + rest)[2..] == rest && ("%s" + rest)[2..] == rest;
  }

  /** Every '%' is followed by a directive that packs something. */
  ghost predicate WellFormed(fmt: bytes)
  {
    forall i | 0 <= i < |fmt| && fmt[i] == '%' :: i + 1 < |fmt| && (fmt[i + 1] == 'd' || fmt[i + 1] == 's')
  }

  lemma {:induction false} CountPercentSplit(a: bytes, b: bytes)
    ensures CountPercent(a + b) == CountPercent(a) + CountPercent(b)
  {
    if b == [] {
      assert a + b == a;
    } else {
      assert (a + b)[..|a + b| - 1] == a + b[..|b| - 1];
      CountPercentSplit(a, b[..|b| - 1]);
    }
  }

  /**
  The two loops agree on the number of elements exactly on well-formed formats; on any other
  format the count is too big.
  */
  lemma {:induction false} LoopsAgree(fmt: bytes, args: seq<Arg>)
    requires Walk(fmt, args).Ok?
    ensures |Walk(fmt, args).value| <= CountPercent(fmt)
    ensures |Walk(fmt, args).value| == CountPercent(fmt) <==> WellFormed(fmt)
  {
    if fmt == [] {
    } else if fmt[0] != '%' {
      assert fmt == fmt[..1] + fmt[1..];
      CountPercentSplit(fmt[..1], fmt[1..]);
      assert CountPercent(fmt[..1]) == 0;
      LoopsAgree(fmt[1..], args);
      WellFormedTail(fmt, 1);
    } else {
      assert fmt == fmt[..2] + fmt[2..];
      CountPercentSplit(fmt[..2], fmt[2..]);
      assert fmt[..2][..1] == ['%'];
      assert CountPercent(['%']) == 1;
      if fmt[1] == 'd' || fmt[1] == 's' {
        LoopsAgree(fmt[2..], args[1..]);
        WellFormedTail(fmt, 2);
      } else {
        LoopsAgree(fmt[2..], args);
        assert !WellFormed(fmt);
      }
    }
  }

  lemma WellFormedTail(fmt: bytes, k: nat)
    requires k <= |fmt|
    requires (k == 1 && fmt[0] != '%') || (k == 2 && fmt[0] == '%' && (fmt[1] == 'd' || fmt[1] == 's'))
    ensures WellFormed(fmt) <==> WellFormed(fmt[k..])
  {
    var tail := fmt[k..];
    assert forall i | 0 <= i < |tail| :: tail[i] == fmt[i + k];
    if WellFormed(tail) {
      forall i | 0 <= i < |fmt| && fmt[i] == '%'
        ensures i + 1 < |fmt| && (fmt[i + 1] == 'd' || fmt[i + 1] == 's')
      {
        if i >= k {
          assert tail[i - k] == '%';
          assert tail[i - k + 1] == fmt[i + 1];
        }
      }
    }
    if WellFormed(fmt) {
      forall i | 0 <= i < |tail| && tail[i] == '%'
        ensures i + 1 < |tail| && (tail[i + 1] == 'd' || tail[i + 1] == 's')
      {
        assert fmt[i + k] == '%';
        assert i + 1 < |tail| && tail[i + 1] == fmt[i + k + 1];
      }
    }
  }

  function Directive(a: Arg): bytes
  {
    if a.IntArg? then "%d" else "%s"
  }

  function Directives(args: seq<Arg>): bytes
  {
    if args == [] then [] else Directive(args[0]) + Directives(args[1..])
  }

  /** A format that names the types of the arguments packs them all, in order. */
  lemma {:induction false} WalkDirectives(args: seq<Arg>)
    ensures Walk(Directives(args), args) == Ok(args)
    ensures CountPercent(Directives(args)) == |args|
    ensures |Directives(args)| == 2 * |args|
  {
    if args != [] {
      var fmt := Directives(args);
      assert fmt[0] == '%' && fmt[2..] == Directives(args[1..]);
      WalkDirectives(args[1..]);
      assert [args[0]] + args[1..] == args;
      CountPercentSplit(Directive(args[0]), Directives(args[1..]));
      assert Directive(args[0])[..1] == ['%'];
      assert CountPercent(['%']) == 1;
    }
  }

  // ---------- The packing loop ----------

  /** The walk when the loop stands at fmt[p..], next argument args[ap], with `done` packed so far. */
  ghost predicate Walking(fmt: bytes, args: seq<Arg>, p: nat, ap: nat, done: seq<Arg>)
    requires p <= |fmt| && ap <= |args|
  {
    match Walk(fmt[p..], args[ap..])
    case Abort => Walk(fmt, args) == Abort
    case Ok(rest) => Walk(fmt, args) == Ok(done + rest)
  }

  lemma WalkingStart(fmt: bytes, args: seq<Arg>)
    ensures Walking(fmt, args, 0, 0, []) && EncodeAll(ArgValues([])) == []
  {
    assert fmt[0..] == fmt && args[0..] == args;
    var w := Walk(fmt, args);
    assert w.Ok? ==> [] + w.value == w.value;
  }

  lemma WalkingStep(fmt: bytes, args: seq<Arg>, p: nat, ap: nat, done: seq<Arg>)
    requires p < |fmt| && ap <= |args| && Walking(fmt, args, p, ap, done)
    ensures fmt[p] != '%' ==> Walking(fmt, args, p + 1, ap, done)
    ensures fmt[p] == '%' && p + 1 == |fmt| ==> Walk(fmt, args) == Abort
    ensures fmt[p] == '%' && p + 1 < |fmt| ==>
      if fmt[p + 1] != 'd' && fmt[p + 1] != 's' then Walking(fmt, args, p + 2, ap, done)
      else if ap == |args| || (fmt[p + 1] == 'd') != args[ap].IntArg? then Walk(fmt, args) == Abort
      else Walking(fmt, args, p + 2, ap + 1, done + [args[ap]])
  {
    var f := fmt[p..];
    assert f[1..] == fmt[p + 1..];
    if fmt[p] == '%' && p + 1 < |fmt| {
      assert f[2..] == fmt[p + 2..];
      if ap < |args| {
        assert args[ap..][1..] == args[ap + 1..];
        var w := Walk(f[2..], args[ap + 1..]);
        assert w.Ok? ==> done + ([args[ap]] + w.value) == done + [args[ap]] + w.value;
      }
    }
  }

  lemma WalkingEnd(fmt: bytes, args: seq<Arg>, ap: nat, done: seq<Arg>)
    requires ap <= |args| && Walking(fmt, args, |fmt|, ap, done)
    ensures Walk(fmt, args) == Ok(done)
  {
    assert done + [] == done;
  }

  lemma EncodeArg(done: seq<Arg>, a: Arg)
    ensures EncodeAll(ArgValues(done + [a])) == EncodeAll(ArgValues(done)) + Encode(ArgValue(a))
  {
    hide Encode;
    var v := ArgValue(a);
    assert ArgValues(done + [a]) == ArgValues(done) + [v];
    assert [v][1..] == [];
    assert EncodeAll([v]) == Encode(v) + [];
    EncodeAllAppend(ArgValues(done), [v]);
  }

  /** The msgpack calls behind one directive. */
  method PackOne(pk: Packer, a: Arg)
    modifies pk
    ensures pk.data == old(pk.data) + Encode(ArgValue(a))
  {
    hide HeadBytes;
    match a
    case IntArg(i) =>
      pk.PackInt(i);
    case StrArg(s) =>
      ghost var before := pk.data;
      pk.PackStr(|s|);
      pk.PackStrBody(s);
      StrEncoding(s);
      assert before + HeadBytes(StrHead(|s|)) + s == before + (HeadBytes(StrHead(|s|)) + s);
  }

  /** The packing loop of both packers. `ok` is false where the C code runs into undefined behaviour. */
  method PackFormat(pk: Packer, fmt: bytes, args: seq<Arg>) returns (ok: bool)
    modifies pk
    ensures ok == Walk(fmt, args).Ok?
    ensures ok ==> pk.data == old(pk.data) + EncodeAll(ArgValues(Walk(fmt, args).value))
  {
    hide Encode, EncodeAll, Walk, Walking, ArgValues, ArgValue;
    ghost var front := pk.data;
    var p, ap := 0, 0;
    ghost var done: seq<Arg> := [];
    WalkingStart(fmt, args);
    while p < |fmt|
      invariant p <= |fmt| && ap <= |args|
      invariant Walking(fmt, args, p, ap, done)
      invariant pk.data == front + EncodeAll(ArgValues(done))
    {
      WalkingStep(fmt, args, p, ap, done);
      if fmt[p] != '%' {
        p := p + 1;
        continue;
      }
      p := p + 1;
      if p == |fmt| {
        return false;
      }
      if fmt[p] == 'd' || fmt[p] == 's' {
        if ap == |args| || (fmt[p] == 'd') != args[ap].IntArg? {
          return false;
        }
        EncodeArg(done, args[ap]);
        PackOne(pk, args[ap]);
        done := done + [args[ap]];
        ap := ap + 1;
      }
      p := p + 1;
    }
    WalkingEnd(fmt, args, ap, done);
    ok := true;
  }
}
