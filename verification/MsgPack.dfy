/**
The MessagePack wire format, as far as a packet of the broker protocol can exercise it: the
unpacker reads every format of the MessagePack specification (section "Formats"), the packer
writes the formats msgpack-c chooses for integers, strings, arrays and maps.

A buffer is a sequence of C `char`s, so that header names can be written as string literals.
*/
module MsgPack {

  type byte = c: char | c as int < 256 witness 'a'
  type bytes = seq<byte>

  // ---------- Big-endian numbers ----------

  function Byte(n: int): (b: byte)
    requires 0 <= n < 256
    ensures b as int == n
  {
    n as char
  }

  function Pow256(w: nat): (p: nat)
    ensures p > 0
  {
    if w == 0 then 1 else 256 * Pow256(w - 1)
  }

  function ToBE(n: nat, w: nat): (b: bytes)
    ensures |b| == w
    decreases w
  {
    if w == 0 then [] else ToBE(n / 256, w - 1) + [Byte(n % 256)]
  }

  function FromBE(b: bytes): (n: nat)
  {
    if b == [] then 0 else 256 * FromBE(b[..|b| - 1]) + b[|b| - 1] as int
  }

  lemma {:induction false} BigEndianRoundTrip(n: nat, w: nat)
    requires n < Pow256(w)
    ensures FromBE(ToBE(n, w)) == n
    decreases w
  {
    if w > 0 {
      BigEndianRoundTrip(n / 256, w - 1);
      var b := ToBE(n, w);
      assert b[..|b| - 1] == ToBE(n / 256, w - 1);
    }
  }

  lemma DivideTwice(n: nat, p: nat)
    requires p > 0
    ensures n / 256 / p == n / (256 * p)
  {
    var q, r := n / 256, n % 256;
    var q', r' := q / p, q % p;
    assert n == 256 * (p * q' + r') + r == (256 * p) * q' + (256 * r' + r);
    assert 0 <= 256 * r' + r < 256 * p;
    Quotient(n, 256 * p, q', 256 * r' + r);
  }

  lemma Quotient(n: nat, d: nat, q: nat, r: nat)
    requires n == d * q + r && r < d
    ensures n / d == q
  {
    var q', r' := n / d, n % d;
    assert d * q' + r' == d * q + r;
    Spread(d, q, q');
    Spread(d, q', q);
  }

  lemma Spread(d: nat, a: nat, b: nat)
    ensures a < b ==> d * a + d <= d * b
  {
    if a < b {
      assert d * b == d * a + d * (b - a);
      assert d * (b - a) == d + d * (b - a - 1);
    }
  }

  /** The byte order: digit i of w has the weight 256^(w - 1 - i). */
  lemma {:induction false} ToBEDigit(n: nat, w: nat, i: nat)
    requires i < w
    ensures ToBE(n, w)[i] as int == n / Pow256(w - 1 - i) % 256
    decreases w
  {
    if i < w - 1 {
      ToBEDigit(n / 256, w - 1, i);
      DivideTwice(n, Pow256(w - 2 - i));
    }
  }

  lemma Distribute(x: nat, p: nat, y: nat, z: nat)
    ensures 256 * (x * p + y) + z == x * (256 * p) + (256 * y + z)
  {
    assert x * (256 * p) == 256 * (x * p);
  }

  /** The byte order when reading: what comes first weighs more. */
  lemma {:induction false} FromBESplit(a: bytes, b: bytes)
    ensures FromBE(a + b) == FromBE(a) * Pow256(|b|) + FromBE(b)
    ensures |b| == 1 ==> FromBE(b) == b[0] as int
  {
    if b == [] {
      assert a + b == a;
    } else {
      var init, last := b[..|b| - 1], b[|b| - 1] as int;
      assert (a + b)[..|a + b| - 1] == a + init;
      FromBESplit(a, init);
      Distribute(FromBE(a), Pow256(|init|), FromBE(init), last);
      FromBEEmpty();
    }
  }

  lemma FromBEEmpty()
    ensures FromBE([]) == 0
  {
  }

  lemma SmallPowers()
    ensures Pow256(0) == 1 && Pow256(1) == 0x100 && Pow256(2) == 0x1_0000 && Pow256(3) == 0x100_0000
  {
    assert Pow256(1) == 256 * Pow256(0);
    assert Pow256(2) == 256 * Pow256(1);
    assert Pow256(3) == 256 * Pow256(2);
  }

  /** One, two and four bytes, most significant first. */
  lemma BigEndianBytes(n: nat)
    ensures n < 0x100 ==> ToBE(n, 1) == [Byte(n)]
    ensures n < 0x1_0000 ==> ToBE(n, 2) == [Byte(n / 0x100), Byte(n % 0x100)]
    ensures n < 0x1_0000_0000 ==>
      ToBE(n, 4) == [Byte(n / 0x100_0000), Byte(n / 0x1_0000 % 0x100), Byte(n / 0x100 % 0x100), Byte(n % 0x100)]
  {
    hide ToBE, Pow256;
    OneByte(n);
    TwoBytes(n);
    MostSignificantFirst(n);
  }

  lemma OneByte(n: nat)
    ensures n < 0x100 ==> ToBE(n, 1) == [Byte(n)]
  {
    hide ToBE, Pow256;
    SmallPowers();
    ToBEDigit(n, 1, 0);
  }

  lemma TwoBytes(n: nat)
    ensures n < 0x1_0000 ==> ToBE(n, 2) == [Byte(n / 0x100), Byte(n % 0x100)]
  {
    hide ToBE, Pow256;
    SmallPowers();
    ToBEDigit(n, 2, 0);
    ToBEDigit(n, 2, 1);
  }

  lemma MostSignificantFirst(n: nat)
    ensures n < 0x1_0000_0000 ==>
      ToBE(n, 4) == [Byte(n / 0x100_0000), Byte(n / 0x1_0000 % 0x100), Byte(n / 0x100 % 0x100), Byte(n % 0x100)]
  {
    hide ToBE, Pow256;
    SmallPowers();
    ToBEDigit(n, 4, 0);
    ToBEDigit(n, 4, 1);
    ToBEDigit(n, 4, 2);
    ToBEDigit(n, 4, 3);
  }

  lemma FirstByte(b: bytes, p: nat)
    requires b != [] && p == Pow256(|b| - 1)
    ensures FromBE(b) == b[0] as int * p + FromBE(b[1..])
  {
    hide FromBE, Pow256;
    FromBESplit(b[..1], b[1..]);
    FromBESplit([], b[..1]);
    assert b[..1] + b[1..] == b;
  }

  /** Four bytes read, most significant first. */
  lemma FourBytes(b: bytes)
    requires |b| == 4
    ensures FromBE(b) == b[0] as int * 0x100_0000 + b[1] as int * 0x1_0000 + b[2] as int * 0x100 + b[3] as int
  {
    hide FromBE, Pow256;
    SmallPowers();
    FromBEEmpty();
    FirstByte(b, 0x100_0000);
    FirstByte(b[1..], 0x1_0000);
    FirstByte(b[2..], 0x100);
    FirstByte(b[3..], 1);
    assert b[1..][1..] == b[2..] && b[2..][1..] == b[3..] && b[3..][1..] == [];
  }

  lemma Pow256Values()
    ensures Pow256(0) == 1 && Pow256(1) == 0x100 && Pow256(2) == 0x1_0000
    ensures Pow256(4) == 0x1_0000_0000 && Pow256(8) == 0x1_0000_0000_0000_0000
  {
    assert Pow256(1) == 256 * Pow256(0);
    assert Pow256(2) == 256 * Pow256(1);
    assert Pow256(3) == 256 * Pow256(2);
    assert Pow256(4) == 256 * Pow256(3);
    assert Pow256(5) == 256 * Pow256(4);
    assert Pow256(6) == 256 * Pow256(5);
    assert Pow256(7) == 256 * Pow256(6);
    assert Pow256(8) == 256 * Pow256(7);
  }

  // ---------- Objects ----------

  /**
  An unpacked object. A map is kept flat: the key of pair i is items[2*i], its value items[2*i+1].
  `Other` stands for nil, booleans, floats, binary data and extensions, none of which the
  protocol looks into.
  */
  datatype Value =
    | PosInt(n: nat)
    | NegInt(i: int)
    | Str(s: bytes)
    | Array(elems: seq<Value>)
    | Map(items: seq<Value>)
    | Other(tag: byte, body: bytes)

  function IntValue(i: int): Value
  {
    if i >= 0 then PosInt(i) else NegInt(i)
  }

  // ---------- Unpacking ----------

  /** What msgpack_unpack_next reports; `used` is how far it moves the offset. */
  datatype Parsed<+T> = Success(value: T, used: nat) | Continue | ParseError

  /** What follows the tag byte and the number after it. */
  datatype Form = Scalar(v: Value) | Text(len: nat) | ArrayOf(n: nat) | MapOf(n: nat) | Raw(len: nat) | Never

  /** Width in bytes of the big-endian number after tag t. */
  function NumWidth(t: int): nat
  {
    if t in {0xc4, 0xc7, 0xcc, 0xd0, 0xd9} then 1
    else if t in {0xc5, 0xc8, 0xcd, 0xd1, 0xda, 0xdc, 0xde} then 2
    else if t in {0xc6, 0xc9, 0xce, 0xd2, 0xdb, 0xdd, 0xdf} then 4
    else if t in {0xcf, 0xd3} then 8
    else 0
  }

  function Signed(n: nat, w: nat): int
  {
    if 2 * n >= Pow256(w) then n - Pow256(w) else n
  }

  function FormOf(t: int, n: nat): Form
  {
    if t < 0x80 then Scalar(IntValue(t))
    else if t < 0x90 then MapOf(t - 0x80)
    else if t < 0xa0 then ArrayOf(t - 0x90)
    else if t < 0xc0 then Text(t - 0xa0)
    else if t == 0xc1 then Never
    else if t < 0xc4 then Raw(0)
    else if t < 0xc7 then Raw(n)
    else if t < 0xca then Raw(n + 1)
    else if t == 0xca then Raw(4)
    else if t == 0xcb then Raw(8)
    else if t < 0xd0 then Scalar(PosInt(n))
    else if t < 0xd4 then Scalar(IntValue(Signed(n, NumWidth(t))))
    else if t < 0xd9 then Raw(if t == 0xd4 then 2 else if t == 0xd5 then 3 else if t == 0xd6 then 5 else if t ==
      0xd7 then 9 else 17)
    else if t < 0xdc then Text(n)
    else if t < 0xde then ArrayOf(n)
    else if t < 0xe0 then MapOf(n)
    else Scalar(IntValue(t - 256))
  }

  function Shift(p: Parsed<Value>, k: nat): Parsed<Value>
  {
    if p.Success? then Success(p.value, p.used + k) else p
  }

  /** One object from the front of b. */
  function Parse(b: bytes): (p: Parsed<Value>)
    ensures p.Success? ==> 0 < p.used <= |b|
    decreases |b|, 0
  {
    if b == [] then Continue else
    var t := b[0] as int;
    var w := NumWidth(t);
    if |b| < 1 + w then Continue else
    Shift(ParseForm(FormOf(t, FromBE(b[1..1 + w])), b[0], b[1 + w..]), 1 + w)
  }

  function ParseForm(f: Form, tag: byte, r: bytes): (p: Parsed<Value>)
    ensures p.Success? ==> p.used <= |r|
    decreases |r|, 2
  {
    match f
    case Never => ParseError
    case Scalar(v) => Success(v, 0)
    case Text(len) => if |r| < len then Continue else Success(Str(r[..len]), len)
    case Raw(len) => if |r| < len then Continue else Success(Other(tag, r[..len]), len)
    case ArrayOf(n) =>
      (match ParseMany(r, n)
       case Success(vs, used) => Success(Array(vs), used)
       case Continue => Continue
       case ParseError => ParseError)
    case MapOf(n) =>
      (match ParseMany(r, 2 * n)
       case Success(vs, used) => Success(Map(vs), used)
       case Continue => Continue
       case ParseError => ParseError)
  }

  /** n objects, one after the other. */
  function ParseMany(r: bytes, n: nat): (p: Parsed<seq<Value>>)
    ensures p.Success? ==> p.used <= |r| && |p.value| == n
    decreases |r|, 1
  {
    if n == 0 then Success([], 0) else
    match Parse(r)
    case Continue => Continue
    case ParseError => ParseError
    case Success(v, used) =>
      match ParseMany(r[used..], n - 1)
      case Continue => Continue
      case ParseError => ParseError
      case Success(vs, more) => Success([v] + vs, used + more)
  }

  // ---------- Locality: an object depends on its own bytes only ----------

  /** Cutting the buffer behind the object changes nothing; cutting inside it asks for more data. */
  lemma {:induction false} ParsePrefix(b: bytes, k: nat)
    requires Parse(b).Success? && k <= |b|
    ensures k >= Parse(b).used ==> Parse(b[..k]) == Parse(b)
    ensures k < Parse(b).used ==> Parse(b[..k]) == Continue
    decreases |b|, 0
  {
    var c := b[..k];
    if k > 0 {
      var w := NumWidth(b[0] as int);
      assert c[0] == b[0];
      if k >= 1 + w {
        assert c[1..1 + w] == b[1..1 + w];
        assert c[1 + w..] == b[1 + w..][..k - 1 - w];
        ParseFormPrefix(FormOf(b[0] as int, FromBE(b[1..1 + w])), b[0], b[1 + w..], k - 1 - w);
      }
    }
  }

  lemma {:induction false} ParseFormPrefix(f: Form, tag: byte, r: bytes, k: nat)
    requires ParseForm(f, tag, r).Success? && k <= |r|
    ensures k >= ParseForm(f, tag, r).used ==> ParseForm(f, tag, r[..k]) == ParseForm(f, tag, r)
    ensures k < ParseForm(f, tag, r).used ==> ParseForm(f, tag, r[..k]) == Continue
    decreases |r|, 2
  {
    match f
    case ArrayOf(n) => ParseManyPrefix(r, n, k);
    case MapOf(n) => ParseManyPrefix(r, 2 * n, k);
    case Text(len) => if k >= len { assert r[..k][..len] == r[..len]; }
    case Raw(len) => if k >= len { assert r[..k][..len] == r[..len]; }
    case _ =>
  }

  lemma {:induction false} ParseManyPrefix(r: bytes, n: nat, k: nat)
    requires ParseMany(r, n).Success? && k <= |r|
    ensures k >= ParseMany(r, n).used ==> ParseMany(r[..k], n) == ParseMany(r, n)
    ensures k < ParseMany(r, n).used ==> ParseMany(r[..k], n) == Continue
    decreases |r|, 1
  {
    if n > 0 {
      ParsePrefix(r, k);
      var used := Parse(r).used;
      if k >= used {
        assert r[..k][used..] == r[used..][..k - used];
        ParseManyPrefix(r[used..], n - 1, k - used);
      }
    }
  }

  /** The encodings of objects are prefix-free: no object is a proper prefix of another. */
  lemma ParseExtends(b: bytes, rest: bytes)
    requires Parse(b).Success?
    requires Parse(b + rest).Success?
    ensures Parse(b + rest) == Parse(b)
  {
    assert (b + rest)[..|b|] == b;
    ParsePrefix(b + rest, |b|);
  }

  // ---------- Packing ----------

  /** A tag byte and the number that follows it. */
  datatype Head = Head(t: int, w: nat, n: nat)

  ghost predicate ValidHead(h: Head, f: Form)
  {
    0 <= h.t < 256 && h.w == NumWidth(h.t) && h.n < Pow256(h.w) && FormOf(h.t, h.n) == f
  }

  function HeadBytes(h: Head): bytes
    requires 0 <= h.t < 256
  {
    [Byte(h.t)] + ToBE(h.n, h.w)
  }

  /** msgpack_pack_int: the shortest format that holds a 32-bit int. */
  function IntHead(i: int): (h: Head)
    requires IsInt32(i)
    ensures ValidHead(h, Scalar(IntValue(i)))
  {
    Pow256Values();
    if i < -0x8000 then Head(0xd2, 4, i + 0x1_0000_0000)
    else if i < -0x80 then Head(0xd1, 2, i + 0x1_0000)
    else if i < -0x20 then Head(0xd0, 1, i + 0x100)
    else if i < 0 then Head(i + 256, 0, 0)
    else if i < 0x80 then Head(i, 0, 0)
    else if i < 0x100 then Head(0xcc, 1, i)
    else if i < 0x1_0000 then Head(0xcd, 2, i)
    else Head(0xce, 4, i)
  }

  function StrHead(n: nat): (h: Head)
    requires n < 0x1_0000_0000
    ensures ValidHead(h, Text(n))
  {
    Pow256Values();
    if n < 32 then Head(0xa0 + n, 0, 0)
    else if n < 0x100 then Head(0xd9, 1, n)
    else if n < 0x1_0000 then Head(0xda, 2, n)
    else Head(0xdb, 4, n)
  }

  function ArrayHead(n: nat): (h: Head)
    requires n < 0x1_0000_0000
    ensures ValidHead(h, ArrayOf(n))
  {
    Pow256Values();
    if n < 16 then Head(0x90 + n, 0, 0)
    else if n < 0x1_0000 then Head(0xdc, 2, n)
    else Head(0xdd, 4, n)
  }

  function MapHead(n: nat): (h: Head)
    requires n < 0x1_0000_0000
    ensures ValidHead(h, MapOf(n))
  {
    Pow256Values();
    if n < 16 then Head(0x80 + n, 0, 0)
    else if n < 0x1_0000 then Head(0xde, 2, n)
    else Head(0xdf, 4, n)
  }

  /** The packer never spends more bytes on a head than another head with the same meaning would. */
  lemma ShortestHeads(h: Head)
    ensures forall i | IsInt32(i) && ValidHead(h, Scalar(IntValue(i))) :: IntHead(i).w <= h.w
    ensures forall n | n < 0x1_0000_0000 && ValidHead(h, Text(n)) :: StrHead(n).w <= h.w
    ensures forall n | n < 0x1_0000_0000 && ValidHead(h, ArrayOf(n)) :: ArrayHead(n).w <= h.w
    ensures forall n | n < 0x1_0000_0000 && ValidHead(h, MapOf(n)) :: MapHead(n).w <= h.w
  {
    Pow256Values();
  }

  predicate IsInt32(i: int)
  {
    -0x8000_0000 <= i < 0x8000_0000
  }

  /** The objects that the packers of this system can write. */
  predicate Packable(v: Value)
    decreases v
  {
    match v
    case PosInt(n) => IsInt32(n)
    case NegInt(i) => i < 0 && IsInt32(i)
    case Str(s) => |s| < 0x1_0000_0000
    case Array(elems) => |elems| < 0x1_0000_0000 && forall e | e in elems :: Packable(e)
    case Map(items) => |items| % 2 == 0 && |items| < 0x2_0000_0000 && forall e | e in items :: Packable(e)
    case Other(_, _) => false
  }

  function Encode(v: Value): bytes
    requires Packable(v)
    decreases v
  {
    match v
    case PosInt(n) => HeadBytes(IntHead(n))
    case NegInt(i) => HeadBytes(IntHead(i))
    case Str(s) => HeadBytes(StrHead(|s|)) + s
    case Array(elems) => HeadBytes(ArrayHead(|elems|)) + EncodeAll(elems)
    case Map(items) => HeadBytes(MapHead(|items| / 2)) + EncodeAll(items)
  }

  function EncodeAll(vs: seq<Value>): bytes
    requires forall v | v in vs :: Packable(v)
    decreases vs
  {
    if vs == [] then [] else Encode(vs[0]) + EncodeAll(vs[1..])
  }

  lemma {:induction false} EncodeAllAppend(vs: seq<Value>, ws: seq<Value>)
    requires forall v | v in vs :: Packable(v)
    requires forall v | v in ws :: Packable(v)
    ensures forall v | v in vs + ws :: Packable(v)
    ensures EncodeAll(vs + ws) == EncodeAll(vs) + EncodeAll(ws)
  {
    if vs == [] {
      assert vs + ws == ws;
    } else {
      assert (vs + ws)[1..] == vs[1..] + ws;
      EncodeAllAppend(vs[1..], ws);
    }
  }

  // ---------- Round trip ----------

  lemma ParseHead(h: Head, f: Form, rest: bytes)
    requires ValidHead(h, f)
    ensures Parse(HeadBytes(h) + rest) == Shift(ParseForm(f, Byte(h.t), rest), 1 + h.w)
  {
    var b := HeadBytes(h) + rest;
    assert b[1..1 + h.w] == ToBE(h.n, h.w);
    assert b[1 + h.w..] == rest;
    BigEndianRoundTrip(h.n, h.w);
  }

  lemma ParseBehindHead(h: Head, f: Form, v: Value, body: bytes, rest: bytes)
    requires ValidHead(h, f)
    requires ParseForm(f, Byte(h.t), body + rest) == Success(v, |body|)
    ensures Parse(HeadBytes(h) + body + rest) == Success(v, |HeadBytes(h) + body|)
  {
    hide Parse, ParseForm;
    ParseHead(h, f, body + rest);
    assert HeadBytes(h) + body + rest == HeadBytes(h) + (body + rest);
  }

  /** An encoded object is read back whole, whatever follows it. */
  lemma {:induction false} EncodeParse(v: Value, rest: bytes)
    requires Packable(v)
    ensures Parse(Encode(v) + rest) == Success(v, |Encode(v)|)
    decreases v, 0
  {
    match v
    case PosInt(n) =>
      assert Encode(v) == HeadBytes(IntHead(n)) + [];
      ParseBehindHead(IntHead(n), Scalar(v), v, [], rest);
    case NegInt(i) =>
      assert Encode(v) == HeadBytes(IntHead(i)) + [];
      ParseBehindHead(IntHead(i), Scalar(v), v, [], rest);
    case Str(s) =>
      assert (s + rest)[..|s|] == s;
      ParseBehindHead(StrHead(|s|), Text(|s|), v, s, rest);
    case Array(elems) =>
      EncodeAllParse(elems, rest);
      ParseBehindHead(ArrayHead(|elems|), ArrayOf(|elems|), v, EncodeAll(elems), rest);
    case Map(items) =>
      EncodeAllParse(items, rest);
      ParseBehindHead(MapHead(|items| / 2), MapOf(|items| / 2), v, EncodeAll(items), rest);
  }

  lemma EmptyBuffer()
    ensures Parse([]) == Continue && ReadAll([]) == Stream([], false)
  {
  }

  lemma ParseManyStep(v: Value, rest: bytes, n: nat)
    requires Packable(v) && n > 0
    decreases v, 1
    ensures ParseMany(Encode(v) + rest, n) ==
      match ParseMany(rest, n - 1)
      case Success(vs, used) => Success([v] + vs, |Encode(v)| + used)
      case Continue => Continue
      case ParseError => ParseError
  {
    hide Parse, Encode;
    EncodeParse(v, rest);
    assert (Encode(v) + rest)[|Encode(v)|..] == rest;
  }

  lemma ParseManyCons(v: Value, vs: seq<Value>, body: bytes, rest: bytes)
    requires Packable(v) && ParseMany(body + rest, |vs|) == Success(vs, |body|)
    decreases v, 2
    ensures ParseMany(Encode(v) + body + rest, 1 + |vs|) == Success([v] + vs, |Encode(v) + body|)
  {
    hide Parse, Encode, ParseMany;
    ParseManyStep(v, body + rest, 1 + |vs|);
    assert Encode(v) + body + rest == Encode(v) + (body + rest);
  }

  lemma {:induction false} EncodeAllParse(vs: seq<Value>, rest: bytes)
    requires forall v | v in vs :: Packable(v)
    ensures ParseMany(EncodeAll(vs) + rest, |vs|) == Success(vs, |EncodeAll(vs)|)
    decreases vs
  {
    if vs != [] {
      hide Parse, Encode, ParseMany;
      EncodeAllParse(vs[1..], rest);
      ParseManyCons(vs[0], vs[1..], EncodeAll(vs[1..]), rest);
      assert [vs[0]] + vs[1..] == vs;
    }
  }

  /** Fewer objects than asked for: the unpacker waits for more data. */
  lemma {:induction false} TooFewObjects(vs: seq<Value>, n: nat)
    requires forall v | v in vs :: Packable(v)
    requires |vs| < n
    ensures ParseMany(EncodeAll(vs), n) == Continue
    decreases vs
  {
    hide Parse, Encode;
    EmptyBuffer();
    if vs != [] {
      TooFewObjects(vs[1..], n - 1);
      ParseManyStep(vs[0], EncodeAll(vs[1..]), n);
    }
  }

  // ---------- Streams: a packet is one object after the other ----------

  datatype Stream = Stream(objs: seq<Value>, malformed: bool)

  /** Everything a loop over msgpack_unpack_next gets to see, and whether it ends in a parse error. */
  function ReadAll(b: bytes): Stream
    decreases |b|
  {
    match Parse(b)
    case Success(v, used) => var s := ReadAll(b[used..]); Stream([v] + s.objs, s.malformed)
    case Continue => Stream([], false)
    case ParseError => Stream([], true)
  }

  lemma ReadAllStep(v: Value, rest: bytes)
    requires Packable(v)
    ensures ReadAll(Encode(v) + rest) == Stream([v] + ReadAll(rest).objs, ReadAll(rest).malformed)
  {
    hide Parse, Encode;
    EncodeParse(v, rest);
    assert (Encode(v) + rest)[|Encode(v)|..] == rest;
  }

  /** Whole objects followed by an unfinished one: exactly the whole ones are seen. */
  lemma {:induction false} ReadEncoded(vs: seq<Value>, tail: bytes)
    requires forall v | v in vs :: Packable(v)
    requires Parse(tail) == Continue
    ensures ReadAll(EncodeAll(vs) + tail) == Stream(vs, false)
    decreases vs
  {
    hide Parse, Encode;
    if vs == [] {
      assert EncodeAll(vs) + tail == tail;
    } else {
      ReadEncoded(vs[1..], tail);
      ReadAllStep(vs[0], EncodeAll(vs[1..]) + tail);
      assert EncodeAll(vs) + tail == Encode(vs[0]) + (EncodeAll(vs[1..]) + tail);
    }
  }

  /** The stream round trip: a packed list of objects is read back as that list, to the last byte. */
  lemma StreamRoundTrip(vs: seq<Value>)
    requires forall v | v in vs :: Packable(v)
    ensures ReadAll(EncodeAll(vs)) == Stream(vs, false)
    ensures ParseMany(EncodeAll(vs), |vs|) == Success(vs, |EncodeAll(vs)|)
  {
    assert EncodeAll(vs) + [] == EncodeAll(vs);
    ReadEncoded(vs, []);
    EncodeAllParse(vs, []);
  }

  /** How many objects of vs lie wholly within the first k bytes of their encoding. */
  function WholeWithin(vs: seq<Value>, k: nat): (m: nat)
    requires forall v | v in vs :: Packable(v)
    ensures m <= |vs|
  {
    if vs == [] || k < |Encode(vs[0])| then 0
    else 1 + WholeWithin(vs[1..], k - |Encode(vs[0])|)
  }

  lemma {:induction false} WholeWithinMeaning(vs: seq<Value>, k: nat)
    requires forall v | v in vs :: Packable(v)
    ensures var m := WholeWithin(vs, k);
      && (forall v | v in vs[..m] :: Packable(v))
      && |EncodeAll(vs[..m])| <= k
      && (m < |vs| ==> (forall v | v in vs[..m + 1] :: Packable(v)) && k < |EncodeAll(vs[..m + 1])|)
  {
    var m := WholeWithin(vs, k);
    if m > 0 {
      WholeWithinMeaning(vs[1..], k - |Encode(vs[0])|);
      assert vs[..m][1..] == vs[1..][..m - 1];
      if m < |vs| {
        assert vs[..m + 1][1..] == vs[1..][..m];
      }
    }
  }

  /** A truncated packet shows its whole leading objects, in order, and is never a parse error. */
  lemma {:induction false} Truncation(vs: seq<Value>, k: nat)
    requires forall v | v in vs :: Packable(v)
    requires k <= |EncodeAll(vs)|
    ensures ReadAll(EncodeAll(vs)[..k]) == Stream(vs[..WholeWithin(vs, k)], false)
    decreases vs
  {
    hide Parse, Encode;
    EmptyBuffer();
    if vs == [] {
      assert EncodeAll(vs)[..k] == [];
    } else {
      var n := |Encode(vs[0])|;
      if k >= n {
        var rest := EncodeAll(vs[1..])[..k - n];
        assert EncodeAll(vs)[..k] == Encode(vs[0]) + rest;
        ReadAllStep(vs[0], rest);
        Truncation(vs[1..], k - n);
        assert vs[..WholeWithin(vs, k)] == [vs[0]] + vs[1..][..WholeWithin(vs[1..], k - n)];
      } else {
        EncodeParse(vs[0], EncodeAll(vs[1..]));
        ParsePrefix(EncodeAll(vs), k);
      }
    }
  }

  // ---------- The formats, byte by byte ----------

  /** Bytes written as numbers. */
  function Hex(ns: seq<int>): (b: bytes)
    requires forall n | n in ns :: 0 <= n < 256
    ensures |b| == |ns| && forall i | 0 <= i < |ns| :: b[i] as int == ns[i]
  {
    seq(|ns|, i requires 0 <= i < |ns| => assert ns[i] in ns; Byte(ns[i]))
  }

  /** A number in two or four bytes. */
  function Two(n: nat): bytes
    requires n < 0x1_0000
  {
    Hex([n / 0x100, n % 0x100])
  }

  function Four(n: nat): bytes
    requires n < 0x1_0000_0000
  {
    Hex([n / 0x100_0000, n / 0x1_0000 % 0x100, n / 0x100 % 0x100, n % 0x100])
  }

  /** Integers: fixints, then cc, cd, ce for those that are not negative and d0, d1, d2 for those that are. */
  lemma EncodedInt(i: int)
    requires IsInt32(i)
    ensures 0 <= i < 0x80 ==> Encode(PosInt(i)) == Hex([i])
    ensures 0x80 <= i < 0x100 ==> Encode(PosInt(i)) == Hex([0xcc, i])
    ensures 0x100 <= i < 0x1_0000 ==> Encode(PosInt(i)) == Hex([0xcd]) + Two(i)
    ensures 0x1_0000 <= i ==> Encode(PosInt(i)) == Hex([0xce]) + Four(i)
    ensures -0x20 <= i < 0 ==> Encode(NegInt(i)) == Hex([0x100 + i])
    ensures -0x80 <= i < -0x20 ==> Encode(NegInt(i)) == Hex([0xd0, 0x100 + i])
    ensures -0x8000 <= i < -0x80 ==> Encode(NegInt(i)) == Hex([0xd1]) + Two(0x1_0000 + i)
    ensures i < -0x8000 ==> Encode(NegInt(i)) == Hex([0xd2]) + Four(0x1_0000_0000 + i)
  {
    var n :=
      if i >= 0 then i
      else if i >= -0x80 then 0x100 + i
      else if i >= -0x8000 then 0x1_0000 + i
      else 0x1_0000_0000 + i;
    BigEndianBytes(n);
    NoBytes();
    hide ToBE;
  }

  lemma NoBytes()
    ensures ToBE(0, 0) == []
  {
  }

  /** Strings: fixstr up to 31 bytes, then d9, da and db with the length. */
  lemma EncodedStr(s: bytes)
    requires |s| < 0x1_0000_0000
    ensures Encode(Str(s)) ==
      (if |s| < 32 then Hex([0xa0 + |s|])
       else if |s| < 0x100 then Hex([0xd9, |s|])
       else if |s| < 0x1_0000 then Hex([0xda]) + Two(|s|)
       else Hex([0xdb]) + Four(|s|)) + s
  {
    BigEndianBytes(|s|);
    NoBytes();
    hide ToBE;
  }

  /** Arrays: fixarray up to 15 elements, then dc and dd with the number of elements. */
  lemma EncodedArrayHead(n: nat)
    requires n < 0x1_0000_0000
    ensures HeadBytes(ArrayHead(n)) ==
      if n < 16 then Hex([0x90 + n]) else if n < 0x1_0000 then Hex([0xdc]) + Two(n) else Hex([0xdd]) + Four(n)
  {
    BigEndianBytes(n);
    NoBytes();
    hide ToBE;
  }

  /** Maps: fixmap up to 15 pairs, then de and df with the number of pairs. */
  lemma EncodedMapHead(n: nat)
    requires n < 0x1_0000_0000
    ensures HeadBytes(MapHead(n)) ==
      if n < 16 then Hex([0x80 + n]) else if n < 0x1_0000 then Hex([0xde]) + Two(n) else Hex([0xdf]) + Four(n)
  {
    BigEndianBytes(n);
    NoBytes();
    hide ToBE;
  }

  /** Arrays and maps are a head and their elements, or keys and values in turn, in order. */
  lemma EncodedContainers(vs: seq<Value>)
    requires forall v | v in vs :: Packable(v)
    ensures |vs| < 0x1_0000_0000 ==> Encode(Array(vs)) == HeadBytes(ArrayHead(|vs|)) + EncodeAll(vs)
    ensures |vs| % 2 == 0 && |vs| < 0x2_0000_0000 ==> Encode(Map(vs)) == HeadBytes(MapHead(|vs| / 2)) + EncodeAll(vs)
    ensures EncodeAll([]) == [] && forall v | v in vs :: EncodeAll([v]) == Encode(v)
  {
    forall v | v in vs
      ensures EncodeAll([v]) == Encode(v)
    {
      assert [v][1..] == [];
      assert EncodeAll([v]) == Encode(v) + [];
    }
  }

  // ---------- Reading, format by format ----------

  lemma ParseTagged(t: int, num: bytes, rest: bytes)
    requires 0 <= t < 256 && |num| == NumWidth(t)
    ensures Parse(Hex([t]) + num + rest) == Shift(ParseForm(FormOf(t, FromBE(num)), Byte(t), rest), 1 + |num|)
  {
    hide FromBE, FormOf, ParseForm;
    var b := Hex([t]) + num + rest;
    assert b[0] == Byte(t) && b[1..1 + |num|] == num && b[1 + |num|..] == rest;
  }

  /** The formats of one byte. */
  lemma ReadOneByte(t: int, rest: bytes)
    requires 0 <= t < 256
    ensures t < 0x80 ==> Parse(Hex([t]) + rest) == Success(PosInt(t), 1)
    ensures t >= 0xe0 ==> Parse(Hex([t]) + rest) == Success(NegInt(t - 0x100), 1)
    ensures t in {0xc0, 0xc2, 0xc3} ==> Parse(Hex([t]) + rest) == Success(Other(Byte(t), []), 1)
    ensures t == 0xc1 ==> Parse(Hex([t]) + rest) == ParseError
  {
    if NumWidth(t) == 0 {
      ParseTagged(t, [], rest);
      assert Hex([t]) + [] + rest == Hex([t]) + rest;
      assert rest[..0] == [];
    }
    hide Parse;
  }

  /** Integers: cc to cf unsigned, d0 to d3 in two's complement. */
  lemma ReadInt(num: bytes, rest: bytes)
    requires |num| in {1, 2, 4, 8}
    ensures var t := match |num| case 1 => 0xcc case 2 => 0xcd case 4 => 0xce case _ => 0xcf;
      Parse(Hex([t]) + num + rest) == Success(PosInt(FromBE(num)), 1 + |num|)
    ensures var t := match |num| case 1 => 0xd0 case 2 => 0xd1 case 4 => 0xd2 case _ => 0xd3;
      var limit := match |num|
        case 1 => 0x100
        case 2 => 0x1_0000
        case 4 => 0x1_0000_0000
        case _ => 0x1_0000_0000_0000_0000;
      Parse(Hex([t]) + num + rest) == Success(
        if FromBE(num) < limit / 2 then PosInt(FromBE(num)) else NegInt(FromBE(num) - limit), 1 + |num|)
  {
    Pow256Values();
    FromBELimit(num);
    hide Parse, FromBE, Pow256;
    var t := match |num| case 1 => 0xcc case 2 => 0xcd case 4 => 0xce case _ => 0xcf;
    ParseTagged(t, num, rest);
    ParseTagged(t + 4, num, rest);
  }

  lemma {:induction false} FromBELimit(b: bytes)
    ensures FromBE(b) < Pow256(|b|)
  {
    if b != [] {
      FromBELimit(b[..|b| - 1]);
    }
  }

  /** Strings: a0 to bf, d9, da, db; and what is cut off asks for more. */
  lemma ReadStr(num: bytes, s: bytes, rest: bytes)
    requires |num| in {0, 1, 2, 4} && if num == [] then |s| < 32 else FromBE(num) == |s|
    ensures var t := match |num| case 0 => 0xa0 + |s| case 1 => 0xd9 case 2 => 0xda case _ => 0xdb;
      Parse(Hex([t]) + num + s + rest) == Success(Str(s), 1 + |num| + |s|)
  {
    hide Parse, FromBE;
    var t := match |num| case 0 => 0xa0 + |s| case 1 => 0xd9 case 2 => 0xda case _ => 0xdb;
    ParseTagged(t, num, s + rest);
    assert Hex([t]) + num + (s + rest) == Hex([t]) + num + s + rest;
    assert (s + rest)[..|s|] == s;
  }

  /** Arrays and maps: 90 to 9f, dc, dd and 80 to 8f, de, df, then as many objects, or pairs of them. */
  lemma ReadContainer(n: nat, num: bytes, rest: bytes)
    requires |num| in {0, 2, 4} && if num == [] then n < 16 else FromBE(num) == n
    ensures var t := match |num| case 0 => 0x90 + n case 2 => 0xdc case _ => 0xdd;
      Parse(Hex([t]) + num + rest) ==
        match ParseMany(rest, n)
        case Success(vs, used) => Success(Array(vs), 1 + |num| + used)
        case Continue => Continue
        case ParseError => ParseError
    ensures var t := match |num| case 0 => 0x80 + n case 2 => 0xde case _ => 0xdf;
      Parse(Hex([t]) + num + rest) ==
        match ParseMany(rest, 2 * n)
        case Success(vs, used) => Success(Map(vs), 1 + |num| + used)
        case Continue => Continue
        case ParseError => ParseError
  {
    hide Parse, ParseMany, FromBE;
    var t := match |num| case 0 => 0x90 + n case 2 => 0xdc case _ => 0xdd;
    ParseTagged(t, num, rest);
    var t' := match |num| case 0 => 0x80 + n case 2 => 0xde case _ => 0xdf;
    ParseTagged(t', num, rest);
  }

  /** Data the protocol skips: floats, binary data (c4 to c6) and extensions (c7 to c9, d4 to d8). */
  lemma ReadOther(t: int, num: bytes, body: bytes, rest: bytes)
    requires t in {0xca, 0xcb, 0xc4, 0xc5, 0xc6, 0xc7, 0xc8, 0xc9, 0xd4, 0xd5, 0xd6, 0xd7, 0xd8}
    requires |num| == if t in {0xc4, 0xc7} then 1 else if t in {0xc5, 0xc8} then 2 else if t in {0xc6,
      0xc9} then 4 else 0
    requires |body| == match t
                       case 0xca => 4 case 0xcb => 8
                       case 0xd4 => 2 case 0xd5 => 3 case 0xd6 => 5 case 0xd7 => 9 case 0xd8 => 17
                       case _ => if t <= 0xc6 then FromBE(num) else FromBE(num) + 1
    ensures Parse(Hex([t]) + num + body + rest) == Success(Other(Byte(t), body), 1 + |num| + |body|)
  {
    hide Parse, FromBE;
    ParseTagged(t, num, body + rest);
    assert Hex([t]) + num + (body + rest) == Hex([t]) + num + body + rest;
    assert (body + rest)[..|body|] == body;
  }
}
