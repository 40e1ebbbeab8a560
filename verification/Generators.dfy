/**
client/generate_proxy.pl and server/generate_proxy.pl: the scripts that turn a line of
server_interface.h into a client stub and a server stub.

A line arrives here as the three pieces its regular expression captures: return type, function
name and the text between the parentheses. A stub is kept as the parts of the C code it is made
of that matter at run time.
*/
module Generators {
  import opened MsgPack

  // ---------- The stubs ----------

  /** A generated declaration `ty name = (..) params[index];`. */
  datatype Getter = Getter(ty: bytes, name: bytes, index: nat)

  /** One `if (STR_Equals(operation, op)) { .. }` block of the generated server. */
  datatype ServerStub = ServerStub(op: bytes, getters: seq<Getter>, format: bytes, callArgs: seq<bytes>)

  datatype Accessor = GetHdrIntReply | GetHdrStrReply | NoReturn

  /** One generated client function: what it packs, and how it takes the reply out. */
  datatype ClientStub = ClientStub(op: bytes, format: bytes, callArgs: seq<bytes>, accessor: Accessor)

  // ---------- Perl's string operations ----------

  predicate IsSpace(c: char)
  {
    c == ' ' || 9 <= c as int <= 13
  }

  function WordLen(s: bytes): (n: nat)
    ensures n <= |s|
    ensures s != [] && !IsSpace(s[0]) ==> n > 0
  {
    if s == [] || IsSpace(s[0]) then 0 else 1 + WordLen(s[1..])
  }

  /** split(' ', s): the runs of characters between white space. */
  function Split(s: bytes): seq<bytes>
  {
    if s == [] then []
    else if IsSpace(s[0]) then Split(s[1..])
    else [s[..WordLen(s)]] + Split(s[WordLen(s)..])
  }

  /** White space separates words. */
  lemma {:induction false} SplitMeaning(a: bytes, c: byte, b: bytes)
    requires c == ' ' || 9 <= c as int <= 13
    ensures Split(a + [c] + b) == Split(a) + Split(b)
    decreases |a|
  {
    assert IsSpace(c);
    hide IsSpace, WordLen;
    var s := a + [c] + b;
    if a == [] {
      assert s[1..] == b;
    } else if IsSpace(a[0]) {
      assert s[0] == a[0] && s[1..] == a[1..] + [c] + b;
      SplitMeaning(a[1..], c, b);
    } else {
      var n := WordLen(a);
      WordLenMeaning(a, [c] + b);
      assert a + ([c] + b) == s;
      assert s[0] == a[0] && a[..n] == s[..n] && s[n..] == a[n..] + [c] + b;
      SplitMeaning(a[n..], c, b);
    }
  }

  lemma {:induction false} WordLenMeaning(a: bytes, b: bytes)
    ensures b != [] && IsSpace(b[0]) ==> WordLen(a + b) == WordLen(a)
    ensures (forall d | d in a :: !IsSpace(d)) ==> WordLen(a) == |a|
  {
    if a == [] {
      assert a + b == b;
    } else {
      assert a[0] in a;
      assert (a + b)[0] == a[0] && (a + b)[1..] == a[1..] + b;
      WordLenMeaning(a[1..], b);
    }
  }

  /** s/,//g */
  function StripCommas(s: bytes): bytes
  {
    if s == [] then [] else (if s[0] == ',' then [] else [s[0]]) + StripCommas(s[1..])
  }

  /** grep { $_ ne '' } */
  function NonEmpty(names: seq<bytes>): seq<bytes>
  {
    if names == [] then [] else (if names[0] == [] then [] else [names[0]]) + NonEmpty(names[1..])
  }

  /** Assigning to an element of a Perl array, which grows by one when need be. */
  function Assign(a: seq<bytes>, i: nat, x: bytes): (r: seq<bytes>)
    requires i <= |a|
    ensures |r| == (if i < |a| then |a| else i + 1) && r[..i] == a[..i] && r[i] == x
  {
    if i < |a| then a[i := x] else a + [x]
  }

  // ---------- What the scripts compute from the tokens ----------

  function TokenTypes(tokens: seq<bytes>): seq<bytes>
  {
    seq((|tokens| + 1) / 2, i requires 0 <= i < (|tokens| + 1) / 2 => tokens[2 * i])
  }

  function TokenNames(tokens: seq<bytes>): seq<bytes>
  {
    seq(|tokens| / 2, i requires 0 <= i < |tokens| / 2 => StripCommas(tokens[2 * i + 1]))
  }

  function TypeDirective(ty: bytes): bytes
  {
    if ty == "char*" then "%s" else if ty == "int" then "%d" else []
  }

  /** Types other than char* and int have no directive, and no accessor. */
  lemma TypeTable(ty: bytes)
    ensures TypeDirective("char*") == "%s" && TypeDirective("int") == "%d"
    ensures AccessorOf("char*") == GetHdrStrReply && AccessorOf("int") == GetHdrIntReply
    ensures ty != "char*" && ty != "int" ==> TypeDirective(ty) == [] && AccessorOf(ty) == NoReturn
  {
  }

  function TypesFormat(types: seq<bytes>): bytes
  {
    if types == [] then [] else TypesFormat(types[..|types| - 1]) + TypeDirective(types[|types| - 1])
  }

  function Getters(types: seq<bytes>, names: seq<bytes>): seq<Getter>
  {
    seq(|types|, i requires 0 <= i < |types| => Getter(types[i], if i < |names| then names[i] else [], i))
  }

  function ServerStubOf(fnRet: bytes, fnName: bytes, fnParams: bytes): ServerStub
  {
    var tokens := Split(fnParams);
    var names := NonEmpty(TokenNames(tokens));
    ServerStub(fnName, Getters(TokenTypes(tokens), names), TypeDirective(fnRet), names)
  }

  function AccessorOf(fnRet: bytes): Accessor
  {
    if fnRet == "int" then GetHdrIntReply else if fnRet == "char*" then GetHdrStrReply else NoReturn
  }

  function ClientStubOf(fnRet: bytes, fnName: bytes, fnParams: bytes): ClientStub
  {
    var tokens := Split(fnParams);
    ClientStub(fnName, TypesFormat(TokenTypes(tokens)), NonEmpty(TokenNames(tokens)), AccessorOf(fnRet))
  }

  // ---------- The scripts ----------

  lemma EvenToken(tokens: seq<bytes>, i: nat)
    requires i < |tokens| && i % 2 == 0
    ensures TokenTypes(tokens[..i + 1]) == TokenTypes(tokens[..i]) + [tokens[i]]
    ensures TokenNames(tokens[..i + 1]) == TokenNames(tokens[..i])
    ensures TypesFormat(TokenTypes(tokens[..i + 1])) == TypesFormat(TokenTypes(tokens[..i])) + TypeDirective(tokens[i])
  {
    var before, after := TokenTypes(tokens[..i]), TokenTypes(tokens[..i + 1]);
    assert after == before + [tokens[i]];
    assert after[..|after| - 1] == before;
  }

  lemma OddToken(tokens: seq<bytes>, i: nat)
    requires i < |tokens| && i % 2 == 1
    ensures TokenTypes(tokens[..i + 1]) == TokenTypes(tokens[..i])
    ensures TokenNames(tokens[..i + 1]) == TokenNames(tokens[..i]) + [StripCommas(tokens[i])]
    ensures |TokenNames(tokens[..i])| == i / 2
  {
  }

  lemma NoTokens(tokens: seq<bytes>)
    ensures TokenTypes(tokens[..0]) == [] && TokenNames(tokens[..0]) == [] && TypesFormat([]) == []
    ensures forall names :: NonEmpty([[]] + names) == NonEmpty(names)
  {
    forall names: seq<bytes>
      ensures NonEmpty([[]] + names) == NonEmpty(names)
    {
      assert ([[]] + names)[1..] == names;
    }
  }

  /** The loop over the parameter tokens that both scripts start with, and the grep behind it. */
  method ReadParams(fnParams: bytes) returns (format: bytes, paramTypes: seq<bytes>, paramNames: seq<bytes>,
      paramCount: nat)
    ensures var tokens := Split(fnParams);
      && paramCount <= |paramTypes| && paramTypes[..paramCount] == TokenTypes(tokens)
      && paramNames == NonEmpty(TokenNames(tokens))
      && format == TypesFormat(TokenTypes(tokens))
  {
    hide Split, TokenTypes, TokenNames, TypesFormat, NonEmpty, StripCommas;
    var params := Split(fnParams);
    NoTokens(params);
    format := [];
    paramNames := [[]];
    paramTypes := [[]];
    paramCount := 0;
    var i := 0;
    while i < |params|
      invariant i <= |params| && paramCount == (i + 1) / 2
      invariant |paramTypes| == if paramCount == 0 then 1 else paramCount
      invariant paramTypes[..paramCount] == TokenTypes(params[..i])
      invariant paramNames == [[]] + TokenNames(params[..i])
      invariant format == TypesFormat(TokenTypes(params[..i]))
    {
      if i % 2 == 0 {
        if params[i] == "char*" {
          format := format + "%s";
        }
        if params[i] == "int" {
          format := format + "%d";
        }
        paramTypes := Assign(paramTypes, paramCount, params[i]);
        paramCount := paramCount + 1;
        EvenToken(params, i);
        assert paramTypes[..paramCount] == paramTypes[..paramCount - 1] + [paramTypes[paramCount - 1]];
      } else {
        OddToken(params, i);
        ghost var before := paramNames;
        paramNames := Assign(paramNames, paramCount, params[i]);
        paramNames := Assign(paramNames, paramCount, StripCommas(paramNames[paramCount]));
        assert paramNames == before + [StripCommas(params[i])];
      }
      i := i + 1;
    }
    assert params[..i] == params;
    paramNames := NonEmpty(paramNames);
  }

  method GenerateServerStub(fnRet: bytes, fnName: bytes, fnParams: bytes) returns (stub: ServerStub)
    ensures stub == ServerStubOf(fnRet, fnName, fnParams)
  {
    hide Split, TokenTypes, TokenNames, NonEmpty;
    var _, paramTypes, paramNames, paramCount := ReadParams(fnParams);
    var format: bytes;
    if fnRet == "int" {
      format := "%d";
    } else if fnRet == "char*" {
      format := "%s";
    } else {
      format := [];
    }
    ghost var types := TokenTypes(Split(fnParams));
    var paramGets: seq<Getter> := [];
    var i := 0;
    while i < paramCount
      invariant i <= paramCount
      invariant paramGets == Getters(types, paramNames)[..i]
    {
      paramGets := paramGets + [Getter(paramTypes[i], if i < |paramNames| then paramNames[i] else [], i)];
      assert paramTypes[..paramCount][i] == paramTypes[i];
      i := i + 1;
    }
    stub := ServerStub(fnName, paramGets, format, paramNames);
  }

  method GenerateClientStub(fnRet: bytes, fnName: bytes, fnParams: bytes) returns (stub: ClientStub)
    ensures stub == ClientStubOf(fnRet, fnName, fnParams)
  {
    var format, _, paramNames, _ := ReadParams(fnParams);
    var accessor := NoReturn;
    if fnRet == "int" {
      accessor := GetHdrIntReply;
    }
    if fnRet == "char*" {
      accessor := GetHdrStrReply;
    }
    stub := ClientStub(fnName, format, paramNames, accessor);
  }

  // ---------- Signatures as they are written in the header file ----------

  datatype CType = CInt | CharPtr

  datatype Param = Param(ty: CType, name: bytes)

  datatype Sig = Sig(ret: CType, name: bytes, params: seq<Param>)

  function TypeText(ty: CType): bytes
  {
    if ty.CInt? then "int" else "char*"
  }

  /** "type name, type name" */
  function PrintParams(params: seq<Param>): bytes
  {
    if params == [] then []
    else TypeText(params[0].ty) + " " + params[0].name
         + if |params| == 1 then [] else ", " + PrintParams(params[1..])
  }

  predicate IsWord(s: bytes)
  {
    s != [] && forall c | c in s :: !IsSpace(c)
  }

  predicate GoodParams(params: seq<Param>)
  {
    forall p | p in params :: IsWord(p.name) && ',' !in p.name
  }

  function PrintedTokens(params: seq<Param>): seq<bytes>
  {
    if params == [] then []
    else [TypeText(params[0].ty), params[0].name + if |params| == 1 then [] else [',']] + PrintedTokens(params[1..])
  }

  lemma SplitWord(word: bytes, rest: bytes)
    requires IsWord(word)
    requires rest == [] || IsSpace(rest[0])
    ensures Split(word + rest) == [word] + Split(rest)
  {
    var s := word + rest;
    WordLenMeaning(word, rest);
    assert word + [] == word;
    assert s[0] == word[0] && word[0] in word;
    assert s[..|word|] == word && s[|word|..] == rest;
  }

  /** A run without white space is one word. */
  lemma OneWord(word: bytes)
    requires forall c | c in word :: c != ' ' && !(9 <= c as int <= 13)
    ensures Split(word) == if word == [] then [] else [word]
  {
    if word != [] {
      SplitWord(word, []);
      assert word + [] == word;
    }
  }

  lemma SplitSpace(s: bytes)
    ensures Split([' '] + s) == Split(s)
  {
    assert ([' '] + s)[1..] == s;
  }

  lemma SplitTwo(first: bytes, second: bytes, rest: bytes)
    requires IsWord(first) && IsWord(second)
    requires rest == [] || IsSpace(rest[0])
    ensures Split(first + " " + second + rest) == [first, second] + Split(rest)
  {
    hide Split;
    var tail := second + rest;
    assert first + " " + second + rest == first + ([' '] + tail);
    SplitWord(first, [' '] + tail);
    SplitSpace(tail);
    SplitWord(second, rest);
  }

  lemma {:induction false} SplitPrinted(params: seq<Param>)
    requires GoodParams(params)
    ensures Split(PrintParams(params)) == PrintedTokens(params)
  {
    hide Split;
    SplitEmpty();
    if params != [] {
      var p, more := params[0], params[1..];
      assert p in params;
      var ty, text := TypeText(p.ty), PrintParams(params);
      if |params| == 1 {
        SplitTwo(ty, p.name, []);
        assert text == ty + " " + p.name + [];
        assert p.name + [] == p.name;
      } else {
        var rest := PrintParams(more);
        var name := p.name + [','];
        SplitTwo(ty, name, [' '] + rest);
        assert text == ty + " " + name + ([' '] + rest);
        SplitSpace(rest);
        SplitPrinted(more);
      }
    }
  }

  lemma SplitEmpty()
    ensures Split([]) == []
  {
  }

  // ---------- Both scripts on a printed signature ----------

  function ParamTypes(params: seq<Param>): seq<bytes>
  {
    seq(|params|, i requires 0 <= i < |params| => TypeText(params[i].ty))
  }

  function ParamNames(params: seq<Param>): seq<bytes>
  {
    seq(|params|, i requires 0 <= i < |params| => params[i].name)
  }

  lemma {:induction false} StripAppend(a: bytes, b: bytes)
    ensures StripCommas(a + b) == StripCommas(a) + StripCommas(b)
  {
    if a == [] {
      assert a + b == b;
    } else {
      assert (a + b)[1..] == a[1..] + b;
      StripAppend(a[1..], b);
    }
  }

  lemma {:induction false} StripNothing(a: bytes)
    requires ',' !in a
    ensures StripCommas(a) == a
  {
    if a != [] {
      assert a[0] in a;
      StripNothing(a[1..]);
    }
  }

  lemma {:induction false} NonEmptyKeepsAll(names: seq<bytes>)
    requires forall n | n in names :: n != []
    ensures NonEmpty(names) == names
  {
    if names != [] {
      assert names[0] in names;
      assert forall n | n in names[1..] :: n in names;
      NonEmptyKeepsAll(names[1..]);
    }
  }

  lemma StripName(name: bytes)
    requires ',' !in name
    ensures StripCommas(name + []) == StripCommas(name + [',']) == name
  {
    StripNothing(name);
    StripAppend(name, [',']);
    StripComma();
    assert name + [] == name;
  }

  /** Types stand at the even tokens; the odd ones are the names once their comma is stripped. */
  lemma {:induction false} PrintedTokensAt(params: seq<Param>, i: nat)
    requires GoodParams(params) && i < |params|
    ensures |PrintedTokens(params)| == 2 * |params|
    ensures PrintedTokens(params)[2 * i] == TypeText(params[i].ty)
    ensures StripCommas(PrintedTokens(params)[2 * i + 1]) == params[i].name
  {
    hide StripCommas;
    var p, more := params[0], params[1..];
    assert p in params;
    StripName(p.name);
    if more == [] {
      assert PrintedTokens(more) == [];
    } else {
      PrintedTokensAt(more, if i == 0 then 0 else i - 1);
    }
  }

  lemma StripComma()
    ensures StripCommas([',']) == []
  {
    assert StripCommas([',']) == [] + StripCommas([]);
  }

  lemma NoPrintedTokens()
    ensures PrintedTokens([]) == []
  {
  }

  /** The scripts recover types and names from a printed parameter list, aligned. */
  lemma SignatureRecovered(params: seq<Param>)
    requires GoodParams(params)
    ensures TokenTypes(Split(PrintParams(params))) == ParamTypes(params)
    ensures NonEmpty(TokenNames(Split(PrintParams(params)))) == ParamNames(params)
  {
    hide Split, PrintedTokens, StripCommas, NonEmpty;
    SplitPrinted(params);
    var tokens := PrintedTokens(params);
    forall i | 0 <= i < |params|
      ensures |tokens| == 2 * |params| && tokens[2 * i] == TypeText(params[i].ty) &&
        StripCommas(tokens[2 * i + 1]) == params[i].name
    {
      PrintedTokensAt(params, i);
    }
    NoPrintedTokens();
    assert TokenTypes(tokens) == ParamTypes(params);
    assert TokenNames(tokens) == ParamNames(params);
    forall n | n in ParamNames(params)
      ensures n != []
    {
      var i :| 0 <= i < |params| && params[i].name == n;
      assert params[i] in params;
    }
    NonEmptyKeepsAll(ParamNames(params));
  }

  function ServerStubFor(sig: Sig): ServerStub
  {
    ServerStubOf(TypeText(sig.ret), sig.name, PrintParams(sig.params))
  }

  function ClientStubFor(sig: Sig): ClientStub
  {
    ClientStubOf(TypeText(sig.ret), sig.name, PrintParams(sig.params))
  }

  lemma {:induction false} TypesFormatAt(types: seq<bytes>, i: nat)
    requires i < |types| && forall t | t in types :: |TypeDirective(t)| == 2
    ensures |TypesFormat(types)| == 2 * |types|
    ensures TypesFormat(types)[2 * i..2 * i + 2] == TypeDirective(types[i])
  {
    hide TypeDirective;
    var init, last := types[..|types| - 1], types[|types| - 1];
    assert last in types;
    if init == [] {
      assert TypesFormat(init) == [];
    } else if i == |types| - 1 {
      TypesFormatAt(init, 0);
    } else {
      TypesFormatAt(init, i);
      var whole, part := TypesFormat(types), TypesFormat(init);
      assert whole[..|part|] == part;
      assert whole[2 * i..2 * i + 2] == part[2 * i..2 * i + 2];
    }
  }

  /**
  The two scripts agree on every signature: one getter per parameter, which names it and reads the
  slot that the client's directive at the same position fills; the same argument list; and a
  response directive that the client's accessor is made for.
  */
  lemma GeneratorsAgree(sig: Sig)
    requires GoodParams(sig.params)
    ensures var c, s := ClientStubFor(sig), ServerStubFor(sig);
      && c.op == s.op == sig.name
      && c.callArgs == s.callArgs == ParamNames(sig.params)
      && |s.getters| == |sig.params| && |c.format| == 2 * |sig.params|
      && (forall i | 0 <= i < |sig.params| ::
            && s.getters[i] == Getter(if sig.params[i].ty.CInt? then "int" else "char*", sig.params[i].name, i)
            && c.format[2 * i..2 * i + 2] == if sig.params[i].ty.CInt? then "%d" else "%s")
      && s.format == (if c.accessor == GetHdrIntReply then "%d" else "%s")
      && c.accessor == if sig.ret.CInt? then GetHdrIntReply else GetHdrStrReply
  {
    hide Split, NonEmpty, TokenTypes, TokenNames, TypesFormat, PrintParams;
    SignatureRecovered(sig.params);
    var types := ParamTypes(sig.params);
    if sig.params == [] {
      assert types == [];
      TypesFormatEmpty();
    } else {
      forall i | 0 <= i < |types|
        ensures |TypesFormat(types)| == 2 * |types| && TypesFormat(types)[2 * i..2 * i + 2] == TypeDirective(types[i])
      {
        TypesFormatAt(types, i);
      }
      TypesFormatAt(types, 0);
    }
  }

  lemma TypesFormatEmpty()
    ensures TypesFormat([]) == []
  {
  }
}
