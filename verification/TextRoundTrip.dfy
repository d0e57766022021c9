/** What ParseVariant makes of the String form of a variant. */
module TextRoundTrip {
  import opened Bytes
  import opened Signature
  import opened Values
  import opened TextLexer
  import opened TextParser
  import opened TextPrinter
  import opened TextLexing
  import opened Options

  // ---------------------------------------------------------------- numbers

  lemma DigitOfChar(n: nat)
    requires n < 16
    ensures IsDigit(Hex, DigitChar(n)) && DigitValue(DigitChar(n)) == n
  {
  }

  lemma {:induction false} DecimalValue(n: nat)
    ensures DigitsValue(Decimal(n), 10) == Some(n)
    decreases n
  {
    var w := Decimal(n);
    DigitOfChar(n % 10);
    if n < 10 {
      assert w[..0] == [];
    } else {
      DecimalValue(n / 10);
      assert w[..|w| - 1] == Decimal(n / 10);
    }
  }

  lemma SignedValue(u: Library, c: byte, n: int)
    requires IsInteger([c]) && InRange(c, n)
    ensures NumAs(u, Signed(n), [c]) == Some(Num(n))
  {
    hide Decimal, DigitsValue, InRange;
    var w := Signed(n);
    if n < 0 {
      DecimalValue(-n);
      DecimalDigits(-n);
      NegativeSigned(c, n);
      assert w[0] == '-';
      assert w[1..] == Decimal(-n);
    } else {
      DecimalValue(n);
      DecimalDigits(n);
      assert '0' <= w[0] <= '9';
      if |w| > 1 {
        assert IsDigit(Dec, w[1]);
      }
    }
    NoPrefix(w);
  }

  lemma NegativeSigned(c: byte, n: int)
    requires InRange(c, n) && n < 0
    ensures IsSigned(c)
  {
  }

  lemma NoPrefix(w: string)
    requires w != [] && (w[0] == '0' ==> |w| == 1)
    ensures !Starts(w, 0, "0x") && !(Starts(w, 0, "0") && |w| != 1)
  {
    if Starts(w, 0, "0x") {
      StartsAt(w, 0, "0x", 0);
    }
    if Starts(w, 0, "0") {
      StartsAt(w, 0, "0", 0);
    }
  }

  lemma HexValue(u: Library, n: nat)
    requires n < 256
    ensures NumAs(u, HexByte(n), "y") == Some(Num(n))
  {
    var w := HexByte(n);
    var t := w[2..];
    assert Starts(w, 0, "0x");
    DigitOfChar(n % 16);
    if n < 16 {
      assert t == [DigitChar(n)];
      assert DigitsValue(t[..0], 16) == Some(0);
    } else {
      DigitOfChar(n / 16);
      assert t == [DigitChar(n / 16), DigitChar(n % 16)];
      assert t[..1] == [DigitChar(n / 16)] && t[..1][..0] == [];
      assert DigitsValue(t[..1], 16) == Some(n / 16);
      assert !Starts(t, 0, "0") by {
        assert t[0..1] == [DigitChar(n / 16)] != "0";
      }
    }
    assert DigitsValue(t, 16) == Some(n);
    assert InRange('y', n) by { assert Pow256(1) == 256 * Pow256(0); }
  }

  /** n has the hexadecimal digit e. */
  predicate EByte(n: int)
  {
    0 <= n < 256 && (n % 16 == 14 || n / 16 == 14)
  }

  lemma {:induction false} SignedIsNoFloat(n: int)
    ensures !LooksFloat(Signed(n))
  {
    if n < 0 {
      DecimalDigits(-n);
    } else {
      DecimalDigits(n);
    }
  }

  lemma HexLooksFloat(n: nat)
    requires n < 256
    ensures LooksFloat(HexByte(n)) <==> EByte(n)
  {
    var w := HexByte(n);
    if n < 16 {
      assert w[2] == DigitChar(n);
    } else {
      assert w[2] == DigitChar(n / 16) && w[3] == DigitChar(n % 16);
    }
  }

  // ---------------------------------------------------------------- strings

  function ReadChar(u: Library, c: char): (r: string)
    ensures r != []
  {
    if Printable(u, c) || c >= ' ' || ControlLetter(c).Some? then
      if c as int == 11 then "v" else [c]
    else ['x'] + Padded(c as int, 2)
  }

  /** What the parser reads when s was printed. */
  function Read(u: Library, s: string): string
    decreases |s|
  {
    if s == [] then [] else ReadChar(u, s[0]) + Read(u, s[1..])
  }

  function Before(a: string, r: Option<string>): Option<string>
  {
    if r.Some? then Some(a + r.value) else None
  }

  predicate Within(n: nat, k: nat)
    decreases k
  {
    if k == 0 then n == 0 else Within(n / 16, k - 1)
  }

  lemma {:induction false} PaddedValue(n: nat, k: nat)
    requires Within(n, k)
    ensures DigitsValue(Padded(n, k), 16) == Some(n)
    decreases k
  {
    if k == 0 {
    } else {
      var w := Padded(n, k);
      DigitOfChar(n % 16);
      PaddedValue(n / 16, k - 1);
      assert w[..|w| - 1] == Padded(n / 16, k - 1);
    }
  }

  lemma Widths(n: nat)
    ensures n < 0x10000 ==> Within(n, 4)
    ensures n < 0x110000 ==> Within(n, 8)
  {
    if n < 0x10000 {
      assert Within(n / 16 / 16, 2);
    }
    if n < 0x110000 {
      assert Within(n / 16 / 16 / 16 / 16 / 16 / 16, 2);
      assert Within(n / 16 / 16 / 16 / 16, 4);
      assert Within(n / 16 / 16, 6);
    }
  }

  lemma UnquoteUnicode(c: char, k: nat, rest: string)
    requires Within(c as int, k) && k > 0
    ensures UnquoteHex(Padded(c as int, k) + rest, k) == Cons(c, Unquote(rest))
  {
    hide Padded, DigitsValue;
    var w := Padded(c as int, k);
    PaddedValue(c as int, k);
    assert (w + rest)[..k] == w && (w + rest)[k..] == rest;
  }

  lemma UnquotePlain(a: char, rest: string)
    requires a != '\\'
    ensures Unquote([a] + rest) == Cons(a, Unquote(rest))
  {
    assert ([a] + rest)[1..] == rest;
  }

  lemma UnquoteEscape(u: Library, c: char, rest: string)
    ensures Unquote(Escape(u, c) + rest) == Before(ReadChar(u, c), Unquote(rest))
  {
    hide Padded, Within;
    var e := Escape(u, c);
    var s := e + rest;
    if c == '"' || c == '\\' {
      assert s[2..] == rest;
    } else if Printable(u, c) {
      UnquotePlain(c, rest);
    } else if ControlLetter(c).Some? {
      assert s[2..] == rest;
    } else if c < ' ' {
      UnquoteX(c, rest);
    } else {
      Widths(c as int);
      var k := if c as int < 0x10000 then 4 else 8;
      assert s[2..] == Padded(c as int, k) + rest;
      UnquoteUnicode(c, k, rest);
    }
  }

  /** \x is no escape to the parser: it reads the letter and the digits. */
  lemma UnquoteX(c: char, rest: string)
    ensures Unquote(['\\', 'x'] + Padded(c as int, 2) + rest) == Before(['x'] + Padded(c as int, 2), Unquote(rest))
  {
    hide Padded;
    var w := Padded(c as int, 2);
    PaddedHarmless(c as int, 2);
    var s := ['\\', 'x'] + w + rest;
    assert s[2..] == [w[0]] + ([w[1]] + rest);
    UnquotePlain(w[0], [w[1]] + rest);
    UnquotePlain(w[1], rest);
    assert s[0] == '\\' && s[1] == 'x';
    assert Unquote(s) == Cons('x', Unquote(s[2..]));
    var r := Unquote(rest);
    if r.Some? {
      assert ['x'] + ([w[0]] + ([w[1]] + r.value)) == (['x'] + w) + r.value;
    }
  }

  lemma {:induction false} UnquoteAll(u: Library, s: string)
    ensures Unquote(EscapeAll(u, s)) == Some(Read(u, s))
    decreases |s|
  {
    if s == [] {
    } else {
      UnquoteAll(u, s[1..]);
      UnquoteEscape(u, s[0], EscapeAll(u, s[1..]));
    }
  }

  /** Not a vertical tab, nor a control character without an escape letter of its own. */
  predicate Plainly(c: char)
  {
    c >= ' ' || (7 <= c as int <= 13 && c as int != 11)
  }

  lemma {:induction false} ReadsItself(u: Library, s: string)
    ensures Read(u, s) == s <==> forall k :: 0 <= k < |s| ==> Plainly(s[k])
    decreases |s|
  {
    if s == [] {
    } else {
      ReadsItself(u, s[1..]);
      var a, b := ReadChar(u, s[0]), Read(u, s[1..]);
      if Plainly(s[0]) {
        assert a == [s[0]];
        assert (a + b)[1..] == b;
        assert s == [s[0]] + s[1..];
      } else {
        assert (a + b)[0] != s[0];
      }
    }
  }

  // ---------------------------------------------------------------- what goes wrong, read off the value

  /** An array with nothing but arrays in it, down to empty ones. */
  predicate Leafless(t: Ty, v: Value)
    requires Fit(t, v)
    decreases v, 0
  {
    t.Array? && AllLeafless(t.elem, v.vs)
  }

  predicate AllLeafless(e: Ty, vs: seq<Value>)
    requires FitAll(e, vs)
    decreases vs, 1
  {
    vs == [] || (Leafless(e, vs[0]) && AllLeafless(e, vs[1..]))
  }

  /** A byte with the digit e, which looks like a float. */
  predicate LooksWrong(t: Ty, v: Value)
    requires Fit(t, v)
    decreases v, 0
  {
    if t.Array? then AnyLooksWrong(t.elem, v.vs) else t.c == 'y' && EByte(v.n)
  }

  predicate AnyLooksWrong(e: Ty, vs: seq<Value>)
    requires FitAll(e, vs)
    decreases vs, 1
  {
    vs != [] && (LooksWrong(e, vs[0]) || AnyLooksWrong(e, vs[1..]))
  }

  /** A variant in v is rejected. */
  predicate Fails(t: Ty, v: Value)
    requires Fit(t, v)
    decreases v, 0
  {
    if t.Array? then AnyFails(t.elem, v.vs) else t.c == 'v' && Rejected(v.ty, v.v)
  }

  predicate AnyFails(e: Ty, vs: seq<Value>)
    requires FitAll(e, vs)
    decreases vs, 1
  {
    vs != [] && (Fails(e, vs[0]) || AnyFails(e, vs[1..]))
  }

  /** The text of v is rejected: it has an array of bytes with such a byte. */
  predicate Rejected(t: Ty, v: Value)
    requires Fit(t, v)
    decreases v, 1
  {
    Fails(t, v) || (t.Array? && LooksWrong(t, v))
  }

  /** What is read as an element of an array: a leafless array becomes an empty one. */
  function Inside(u: Library, t: Ty, v: Value): Value
    requires Fit(t, v)
    decreases v, 0
  {
    if t.Array? then if Leafless(t, v) then List([]) else List(InsideAll(u, t.elem, v.vs))
    else if t.c == 'v' then Variant(v.ty, Outside(u, v.ty, v.v))
    else if t.c == 'g' then Sig(Read(u, v.s))
    else if t.c == 's' || t.c == 'o' then Text(Read(u, v.s))
    else v
  }

  function InsideAll(u: Library, e: Ty, vs: seq<Value>): (r: seq<Value>)
    requires FitAll(e, vs)
    ensures |r| == |vs|
    decreases vs, 1
  {
    if vs == [] then [] else [Inside(u, e, vs[0])] + InsideAll(u, e, vs[1..])
  }

  /** What is read on its own or in a variant. */
  function Outside(u: Library, t: Ty, v: Value): Value
    requires Fit(t, v)
    decreases v, 1
  {
    if t.Array? then List(InsideAll(u, t.elem, v.vs)) else Inside(u, t, v)
  }

  // ---------------------------------------------------------------- the nodes of a value

  function NodeOf(u: Library, t: Ty, v: Value): Node
    requires Fit(t, v)
    decreases v, 0
  {
    if t.Array? then ArrayNode(SigsOf(t, v), NodesOf(u, t.elem, v.vs))
    else if t.c == 'v' then VariantNode(WrittenNode(u, v.ty, v.v))
    else if t.c == 'b' then BoolNode(v.b)
    else if v.Num? then NumText(BasicForm(u, t.c, v))
    else StrText(Read(u, v.s))
  }

  function NodesOf(u: Library, e: Ty, vs: seq<Value>): seq<Node>
    requires FitAll(e, vs)
    decreases vs, 1
  {
    if vs == [] then [] else [NodeOf(u, e, vs[0])] + NodesOf(u, e, vs[1..])
  }

  /** With the type written in front. */
  function TypedNode(u: Library, t: Ty, v: Value): Node
    requires Fit(t, v)
    decreases v, 1
  {
    if t.Array? then ArrayNode({Print(t)}, NodesOf(u, t.elem, v.vs))
    else if t.c == 'v' || t.c == 'b' then NodeOf(u, t, v)
    else if v.Num? then NumTyped(Print(t), v)
    else StrTyped(Print(t), Read(u, v.s))
  }

  function WrittenNode(u: Library, t: Ty, v: Value): Node
    requires Fit(t, v)
    decreases v, 2
  {
    if Clear(t, v) then NodeOf(u, t, v) else TypedNode(u, t, v)
  }

  /** All types the parser considers for a text of type t. */
  function Full(t: Ty): set<string>
    requires Plain(t)
  {
    if t.Array? then ToArray(Full(t.elem))
    else if t.c == 'b' then {"b"}
    else if t.c == 'v' then {"v"}
    else if t.c == 's' || t.c == 'o' || t.c == 'g' then STRINGS
    else NUMBERS
  }

  /** The type it takes t for when it sees a float. */
  function FloatSig(t: Ty): string
    requires Plain(t)
  {
    if t.Array? then ['a'] + FloatSig(t.elem) else "d"
  }

  /** The type information of elements, some of them leafless, some looking wrong. */
  function Info(t: Ty, leafless: bool, wrong: bool): set<string>
    requires Plain(t)
  {
    if leafless then {} else if wrong then {FloatSig(t)} else Full(t)
  }

  function SigsOf(t: Ty, v: Value): set<string>
    requires Fit(t, v)
  {
    Info(t, Leafless(t, v), LooksWrong(t, v))
  }

  lemma SigsAre(u: Library, t: Ty, v: Value)
    requires Fit(t, v)
    ensures Sigs(NodeOf(u, t, v)) == SigsOf(t, v)
  {
    if t.Basic? && v.Num? {
      if t.c == 'y' {
        ByteRange(v.n);
        HexLooksFloat(v.n);
      } else {
        SignedIsNoFloat(v.n);
      }
    }
  }

  lemma {:induction false} FullHas(t: Ty)
    requires Plain(t)
    ensures Print(t) in Full(t)
  {
    if !t.Array? {
    } else {
      FullHas(t.elem);
    }
  }

  /** The letter below all arrays. */
  function Core(t: Ty): char
    requires Plain(t)
  {
    if t.Array? then Core(t.elem) else t.c
  }

  lemma {:induction false} FullHasFloat(t: Ty)
    requires Plain(t) && Core(t) == 'y'
    ensures FloatSig(t) in Full(t) && FloatSig(t) != Print(t)
  {
    if !t.Array? {
    } else {
      FullHasFloat(t.elem);
      assert (['a'] + FloatSig(t.elem))[1..] == FloatSig(t.elem);
      assert Print(t)[1..] == Print(t.elem);
    }
  }

  lemma {:induction false} WrongIsByte(t: Ty, v: Value)
    requires Fit(t, v) && LooksWrong(t, v)
    ensures Core(t) == 'y' && !Leafless(t, v)
    decreases v, 0
  {
    if !t.Array? {
    } else {
      AnyWrongIsByte(t.elem, v.vs);
    }
  }

  lemma {:induction false} AnyWrongIsByte(e: Ty, vs: seq<Value>)
    requires Plain(e) && FitAll(e, vs) && AnyLooksWrong(e, vs)
    ensures Core(e) == 'y' && !AllLeafless(e, vs)
    decreases vs, 1
  {
    if LooksWrong(e, vs[0]) {
      WrongIsByte(e, vs[0]);
    } else {
      AnyWrongIsByte(e, vs[1..]);
    }
  }

  // ---------------------------------------------------------------- narrowing

  lemma ToArrayOfInfo(e: Ty, leafless: bool, wrong: bool)
    requires Plain(e)
    ensures ToArray(Info(e, leafless, wrong)) == Info(Array(e), leafless, wrong)
  {
  }

  lemma Meets(full: set<string>, p: string)
    requires p in full
    ensures full != {} && full * full == full && full * {p} == {p}
  {
  }

  lemma MeetsOne(full: set<string>, f: string, p: string)
    requires f in full && f != p
    ensures {f} * full == {f} && full * {f} == {f} && {f} * {f} == {f} && {f} != {} && {f} * {p} == {}
  {
  }

  /** Without a type in front. */
  lemma NarrowsUntyped(u: Library, e: Ty, leafless: bool, wrong: bool, v: Value)
    requires Fit(e, v) && (wrong ==> !leafless && Core(e) == 'y')
    ensures Narrowed(Info(Array(e), leafless, wrong), NodeOf(u, e, v))
         == Some(Info(Array(e), leafless && Leafless(e, v), wrong || LooksWrong(e, v)))
  {
    hide ToArray, Full, FloatSig, NodeOf, Sigs, Leafless, LooksWrong;
    SigsAre(u, e, v);
    InfoOfElem(e, v);
    FullHas(Array(e));
    Meets(Full(Array(e)), Print(Array(e)));
    if Core(e) == 'y' {
      CoreOfArray(e);
      FullHasFloat(Array(e));
      MeetsOne(Full(Array(e)), FloatSig(Array(e)), Print(Array(e)));
    }
  }

  /** The type information that an element gives about its array. */
  lemma InfoOfElem(e: Ty, v: Value)
    requires Fit(e, v)
    ensures ToArray(SigsOf(e, v)) == Info(Array(e), Leafless(e, v), LooksWrong(e, v))
    ensures SigsOf(e, v) == {} <==> Leafless(e, v)
    ensures LooksWrong(e, v) ==> !Leafless(e, v) && Core(e) == 'y'
  {
    hide ToArray, Full, FloatSig, Leafless, LooksWrong;
    ToArrayOfInfo(e, Leafless(e, v), LooksWrong(e, v));
    FullHas(e);
    if LooksWrong(e, v) {
      WrongIsByte(e, v);
    }
  }

  lemma CoreOfArray(e: Ty)
    requires Plain(e)
    ensures Plain(Array(e)) && Core(Array(e)) == Core(e)
  {
  }

  /** With the type in front, an element that looks wrong contradicts it. */
  lemma NarrowsTyped(u: Library, e: Ty, v: Value)
    requires Fit(e, v)
    ensures Narrowed({Print(Array(e))}, NodeOf(u, e, v)) == if LooksWrong(e, v) then None else Some({Print(Array(e))})
  {
    hide ToArray, Full, FloatSig, NodeOf, Sigs, Leafless, LooksWrong;
    SigsAre(u, e, v);
    InfoOfElem(e, v);
    FullHas(Array(e));
    Meets(Full(Array(e)), Print(Array(e)));
    if LooksWrong(e, v) {
      CoreOfArray(e);
      FullHasFloat(Array(e));
      MeetsOne(Full(Array(e)), FloatSig(Array(e)), Print(Array(e)));
    }
  }

  // ---------------------------------------------------------------- tokens to nodes

  /** MakeNode succeeded with n, or failed. */
  function Made(fails: bool, n: Node, rest: seq<Token>): Res<Parsed>
  {
    if fails then Fail else Ok(Parsed(n, rest))
  }

  lemma Front(t: Token, ts: seq<Token>)
    ensures ([t] + ts)[0] == t && ([t] + ts)[1..] == ts
  {
  }

  lemma AssocToks(a: seq<Token>, b: seq<Token>, c: seq<Token>)
    ensures (a + b) + c == a + (b + c)
  {
  }

  lemma UnquoteQuote(u: Library, s: string)
    ensures |Quote(u, s)| >= 2 && Unquote(Quote(u, s)[1..|Quote(u, s)| - 1]) == Some(Read(u, s))
  {
    var w := EscapeAll(u, s);
    assert Quote(u, s)[1..|Quote(u, s)| - 1] == w;
    UnquoteAll(u, s);
  }

  lemma MakesBasic(u: Library, c: byte, v: Value, rest: seq<Token>)
    requires Fit(Basic(c), v) && c != 'v'
    ensures MakeNode(u, Toks(u, Basic(c), v) + rest, "") == Ok(Parsed(NodeOf(u, Basic(c), v), rest))
    ensures !Clear(Basic(c), v) ==>
              MakeNode(u, Toks(u, Basic(c), v) + rest, [c]) == Ok(Parsed(TypedNode(u, Basic(c), v), rest))
  {
    hide Quote, Unquote, NumAs, HexByte, Signed, Read;
    Front(Toks(u, Basic(c), v)[0], rest);
    if c == 'b' {
      assert "true"[0] != "false"[0];
    } else if c == 's' || c == 'o' || c == 'g' {
      UnquoteQuote(u, v.s);
    } else if c == 'y' {
      ByteRange(v.n);
      HexValue(u, v.n);
    } else {
      SignedValue(u, c, v.n);
    }
  }

  lemma {:induction false} ClearIsRight(t: Ty, v: Value)
    requires Fit(t, v) && Clear(t, v)
    ensures !LooksWrong(t, v) && !Leafless(t, v)
    decreases v, 0
  {
    if !t.Array? {
    } else {
      AllClearIsRight(t.elem, v.vs);
    }
  }

  lemma {:induction false} AllClearIsRight(e: Ty, vs: seq<Value>)
    requires FitAll(e, vs) && AllClear(e, vs)
    ensures !AnyLooksWrong(e, vs) && (vs != [] ==> !AllLeafless(e, vs))
    decreases vs, 1
  {
    if vs == [] {
    } else {
      ClearIsRight(e, vs[0]);
      AllClearIsRight(e, vs[1..]);
    }
  }

  lemma {:induction false} MakesNode(u: Library, t: Ty, v: Value, rest: seq<Token>)
    requires Fit(t, v)
    ensures MakeNode(u, Toks(u, t, v) + rest, "") == Made(Fails(t, v), NodeOf(u, t, v), rest)
    decreases v, 0
  {
    hide MakeNode, Full, FloatSig;
    if t.Array? {
      StartArray(u, t, v, "", rest);
      if v.vs != [] {
        MakesElems(u, t.elem, v.vs, true, false, [], rest);
        assert [] + NodesOf(u, t.elem, v.vs) == NodesOf(u, t.elem, v.vs);
      }
    } else if t.c == 'v' {
      MakesWritten(u, v.ty, v.v, [Punct('>')] + rest);
      VariantDone(u, v, rest);
    } else {
      MakesBasic(u, t.c, v, rest);
    }
  }

  lemma StartArray(u: Library, t: Ty, v: Value, sig: string, rest: seq<Token>)
    requires t.Array? && Fit(t, v)
    ensures MakeNode(u, Toks(u, t, v) + rest, sig)
         == if v.vs == [] then Ok(Parsed(ArrayNode(if sig == "" then {} else {sig}, []), rest))
            else MakeElems(u, ElemToks(u, t.elem, v.vs) + ([Punct(']')] + rest), if sig == "" then {} else {sig}, [])
  {
    hide MakeElems, Toks;
    var ts := ElemToks(u, t.elem, v.vs);
    AssocToks([Punct('[')], ts + [Punct(']')], rest);
    AssocToks(ts, [Punct(']')], rest);
    assert Toks(u, t, v) == [Punct('[')] + (ts + [Punct(']')]) by { ToksOfArray(u, t, v); }
    var more := ts + ([Punct(']')] + rest);
    Front(Punct('['), more);
    if v.vs == [] {
      assert more == [Punct(']')] + rest;
      Front(Punct(']'), rest);
    } else {
      FirstTok(u, t.elem, v.vs[0]);
      assert more[0] == Toks(u, t.elem, v.vs[0])[0] by { ElemsFirst(u, t.elem, v.vs); }
    }
  }

  lemma ToksOfArray(u: Library, t: Ty, v: Value)
    requires t.Array? && Fit(t, v)
    ensures Toks(u, t, v) == [Punct('[')] + (ElemToks(u, t.elem, v.vs) + [Punct(']')])
  {
  }

  lemma FirstTok(u: Library, t: Ty, v: Value)
    requires Fit(t, v)
    ensures Toks(u, t, v) != [] && Toks(u, t, v)[0] != Punct(']')
  {
  }

  lemma ElemsFirst(u: Library, e: Ty, vs: seq<Value>)
    requires FitAll(e, vs) && vs != []
    ensures Toks(u, e, vs[0]) != [] && Toks(u, e, vs[0]) <= ElemToks(u, e, vs)
  {
    FirstTok(u, e, vs[0]);
  }

  lemma VariantDone(u: Library, v: Value, rest: seq<Token>)
    requires Fit(Basic('v'), v)
    requires MakeNode(u, WrittenToks(u, v.ty, v.v) + ([Punct('>')] + rest), "")
          == Made(Rejected(v.ty, v.v), WrittenNode(u, v.ty, v.v), [Punct('>')] + rest)
    ensures MakeNode(u, Toks(u, Basic('v'), v) + rest, "") == Made(Fails(Basic('v'), v), NodeOf(u, Basic('v'), v), rest)
  {
    hide WrittenToks, WrittenNode, Rejected;
    var ts := WrittenToks(u, v.ty, v.v);
    AssocToks([Punct('<')], ts + [Punct('>')], rest);
    AssocToks(ts, [Punct('>')], rest);
    Front(Punct('<'), ts + ([Punct('>')] + rest));
    Front(Punct('>'), rest);
    assert MakeNode(u, Toks(u, Basic('v'), v) + rest, "") == MakeVariantNode(u, ts + ([Punct('>')] + rest), "");
  }

  lemma {:induction false} MakesWritten(u: Library, t: Ty, v: Value, rest: seq<Token>)
    requires Fit(t, v)
    ensures MakeNode(u, WrittenToks(u, t, v) + rest, "") == Made(Rejected(t, v), WrittenNode(u, t, v), rest)
    decreases v, 2
  {
    hide MakeNode, Toks, NodeOf, TypedNode;
    if Clear(t, v) {
      ClearIsRight(t, v);
      MakesNode(u, t, v, rest);
    } else {
      MakesTyped(u, t, v, rest);
      Marked(u, t, Toks(u, t, v) + rest);
      AssocToks([Type(Mark(t))], Toks(u, t, v), rest);
    }
  }

  lemma Marked(u: Library, t: Ty, ts: seq<Token>)
    ensures MakeNode(u, [Type(Mark(t))] + ts, "") == MakeNode(u, ts, Print(t))
  {
    Front(Type(Mark(t)), ts);
    assert Mark(t)[1..] == Print(t);
  }

  lemma {:induction false} MakesTyped(u: Library, t: Ty, v: Value, rest: seq<Token>)
    requires Fit(t, v) && !Clear(t, v)
    ensures MakeNode(u, Toks(u, t, v) + rest, Print(t)) == Made(Rejected(t, v), TypedNode(u, t, v), rest)
    decreases v, 1
  {
    hide MakeNode;
    if t.Array? {
      StartArray(u, t, v, Print(t), rest);
      if v.vs != [] {
        MakesElemsTyped(u, t.elem, v.vs, [], rest);
        assert [] + NodesOf(u, t.elem, v.vs) == NodesOf(u, t.elem, v.vs);
      }
    } else {
      MakesBasic(u, t.c, v, rest);
    }
  }

  /** What MakeElems does with the first element, once it is known what MakeNode does. */
  lemma ElemsStep(u: Library, e: Ty, vs: seq<Value>, sigs: set<string>, done: seq<Node>, rest: seq<Token>)
    requires FitAll(e, vs) && vs != []
    requires var more := if |vs| == 1 then [Punct(']')] + rest
                         else [Punct(',')] + (ElemToks(u, e, vs[1..]) + ([Punct(']')] + rest));
             MakeNode(u, Toks(u, e, vs[0]) + more, "") == Made(Fails(e, vs[0]), NodeOf(u, e, vs[0]), more)
    ensures MakeElems(u, ElemToks(u, e, vs) + ([Punct(']')] + rest), sigs, done)
         == var narrowed := Narrowed(sigs, NodeOf(u, e, vs[0]));
            if Fails(e, vs[0]) || narrowed.None? then Fail
            else if |vs| == 1 then Ok(Parsed(ArrayNode(narrowed.value, done + [NodeOf(u, e, vs[0])]), rest))
            else MakeElems(u, ElemToks(u, e, vs[1..]) + ([Punct(']')] + rest), narrowed.value, done + [NodeOf(u, e, vs[0])])
  {
    hide MakeNode, NodeOf, Toks, Fails, Narrowed;
    var end := [Punct(']')] + rest;
    if |vs| == 1 {
      assert ElemToks(u, e, vs) == Toks(u, e, vs[0]);
      Front(Punct(']'), rest);
    } else {
      hide ElemToks;
      var more := ElemToks(u, e, vs[1..]);
      ElemsOf(u, e, vs);
      AssocToks(Toks(u, e, vs[0]), [Punct(',')] + more, end);
      AssocToks([Punct(',')], more, end);
      Front(Punct(','), more + end);
    }
  }

  lemma Appended(u: Library, e: Ty, vs: seq<Value>, done: seq<Node>)
    requires FitAll(e, vs) && vs != []
    ensures (done + [NodeOf(u, e, vs[0])]) + NodesOf(u, e, vs[1..]) == done + NodesOf(u, e, vs)
    ensures |vs| == 1 ==> done + [NodeOf(u, e, vs[0])] == done + NodesOf(u, e, vs)
  {
    hide NodeOf;
    if |vs| == 1 {
      assert NodesOf(u, e, vs[1..]) == [];
    }
  }

  lemma {:induction false} MakesElems(u: Library, e: Ty, vs: seq<Value>, leafless: bool, wrong: bool, done: seq<Node>,
                                      rest: seq<Token>)
    requires Plain(e) && FitAll(e, vs) && vs != [] && (wrong ==> !leafless && Core(e) == 'y')
    ensures MakeElems(u, ElemToks(u, e, vs) + ([Punct(']')] + rest), Info(Array(e), leafless, wrong), done)
         == Made(AnyFails(e, vs),
                 ArrayNode(Info(Array(e), leafless && AllLeafless(e, vs), wrong || AnyLooksWrong(e, vs)),
                           done + NodesOf(u, e, vs)),
                 rest)
    decreases vs, 1
  {
    hide MakeElems, MakeNode, Narrowed, NodeOf, NodesOf, Toks, ElemToks, Info, Leafless, LooksWrong, Fails;
    var n := NodeOf(u, e, vs[0]);
    var more := if |vs| == 1 then [Punct(']')] + rest else [Punct(',')] + (ElemToks(u, e, vs[1..]) + ([Punct(']')] + rest));
    MakesNode(u, e, vs[0], more);
    ElemsStep(u, e, vs, Info(Array(e), leafless, wrong), done, rest);
    NarrowsUntyped(u, e, leafless, wrong, vs[0]);
    if !LooksWrong(e, vs[0]) {
    } else {
      WrongIsByte(e, vs[0]);
    }
    Appended(u, e, vs, done);
    if |vs| <= 1 {
    } else {
      MakesElems(u, e, vs[1..], leafless && Leafless(e, vs[0]), wrong || LooksWrong(e, vs[0]), done + [n], rest);
    }
  }

  lemma {:induction false} MakesElemsTyped(u: Library, e: Ty, vs: seq<Value>, done: seq<Node>, rest: seq<Token>)
    requires FitAll(e, vs) && vs != []
    ensures MakeElems(u, ElemToks(u, e, vs) + ([Punct(']')] + rest), {Print(Array(e))}, done)
         == Made(AnyFails(e, vs) || AnyLooksWrong(e, vs), ArrayNode({Print(Array(e))}, done + NodesOf(u, e, vs)), rest)
    decreases vs, 1
  {
    hide MakeElems, MakeNode, Narrowed, NodeOf, NodesOf, Toks, ElemToks, LooksWrong, Fails;
    var n := NodeOf(u, e, vs[0]);
    var more := if |vs| == 1 then [Punct(']')] + rest else [Punct(',')] + (ElemToks(u, e, vs[1..]) + ([Punct(']')] + rest));
    MakesNode(u, e, vs[0], more);
    ElemsStep(u, e, vs, {Print(Array(e))}, done, rest);
    NarrowsTyped(u, e, vs[0]);
    Appended(u, e, vs, done);
    if |vs| <= 1 {
    } else {
      MakesElemsTyped(u, e, vs[1..], done + [n], rest);
    }
  }

  // ---------------------------------------------------------------- nodes to values

  /** A text that determines its type is inferred to have it. */
  lemma {:induction false} InfersClear(u: Library, t: Ty, v: Value)
    requires Fit(t, v) && Clear(t, v)
    ensures Infer(NodeOf(u, t, v)) == Some(Print(t))
    decreases v, 0
  {
    hide Full, Sigs, TextParser.Single;
    var n := NodeOf(u, t, v);
    SigsAre(u, t, v);
    ClearIsRight(t, v);
    FullHas(t);
    var one := TextParser.Single(Sigs(n));
    if one.Some? {
      SingleIs(Sigs(n), one.value);
    } else if t.Array? {
      InfersClear(u, t.elem, v.vs[0]);
      var ns := NodesOf(u, t.elem, v.vs);
      assert ns[0] == NodeOf(u, t.elem, v.vs[0]);
      assert Infer(n) == InferFirst(ns);
    } else {
      InfersBasic(u, t.c, v);
    }
  }

  lemma InfersBasic(u: Library, c: byte, v: Value)
    requires Fit(Basic(c), v) && Clear(Basic(c), v) && TextParser.Single(Sigs(NodeOf(u, Basic(c), v))).None?
    ensures Infer(NodeOf(u, Basic(c), v)) == Some([c])
  {
    hide TextParser.Single;
    if c == 'i' {
      SignedIsNoFloat(v.n);
    } else if c != 's' {
      SingleIs({[c]}, [c]);
    }
  }

  lemma InfersWritten(u: Library, t: Ty, v: Value)
    requires Fit(t, v)
    ensures Infer(WrittenNode(u, t, v)) == Some(Print(t))
  {
    if Clear(t, v) {
      InfersClear(u, t, v);
    } else {
      SingleIs({Print(t)}, Print(t));
    }
  }

  lemma ArraySig(e: Ty)
    requires Plain(Array(e)) && Nest(Array(e)) <= MAX_NESTING
    ensures SliceSig(Print(Array(e))) && Print(Array(e))[1..] == Print(e)
  {
    hide ScanOne;
    PlainIsValid(Array(e));
  }

  lemma ValueOfBasic(u: Library, c: byte, v: Value)
    requires Fit(Basic(c), v) && c != 'v'
    ensures ValueOf(u, NodeOf(u, Basic(c), v), [c]) == Ok(Inside(u, Basic(c), v))
    ensures ValueOf(u, TypedNode(u, Basic(c), v), [c]) == Ok(Inside(u, Basic(c), v))
  {
    hide NumAs, HexByte, Signed, Read;
    if v.Num? {
      if c == 'y' {
        ByteRange(v.n);
        HexValue(u, v.n);
      } else {
        SignedValue(u, c, v.n);
      }
    }
  }

  lemma {:induction false} ValueOfNode(u: Library, t: Ty, v: Value)
    requires Fit(t, v) && !Fails(t, v) && !(t.Array? && LooksWrong(t, v))
    ensures ValueOf(u, NodeOf(u, t, v), Print(t)) == Ok(Inside(u, t, v))
    decreases v, 0
  {
    hide ValueOf, Full, FloatSig, SliceSig;
    if t.Array? {
      if !Leafless(t, v) {
        FullHas(t);
        ValuesOfNodes(u, t.elem, v.vs);
      }
      ValueOfArray(u, t, v, SigsOf(t, v));
    } else if t.c == 'v' {
      ValueOfWritten(u, v.ty, v.v);
      InfersWritten(u, v.ty, v.v);
      PlainIsValid(v.ty);
      ValueOfVariant(u, v);
    } else {
      ValueOfBasic(u, t.c, v);
    }
  }

  lemma ValueOfArray(u: Library, t: Ty, v: Value, sigs: set<string>)
    requires t.Array? && Fit(t, v) && (sigs == {} || Print(t) in sigs)
    requires sigs != {} ==> ValuesOf(u, NodesOf(u, t.elem, v.vs), Print(t.elem)) == Ok(InsideAll(u, t.elem, v.vs))
    ensures ValueOf(u, ArrayNode(sigs, NodesOf(u, t.elem, v.vs)), Print(t))
         == Ok(List(if sigs == {} then [] else InsideAll(u, t.elem, v.vs)))
  {
    hide SliceSig, ValuesOf, NodesOf, InsideAll, Print;
    ArraySig(t.elem);
  }

  lemma ValueOfVariant(u: Library, v: Value)
    requires Fit(Basic('v'), v)
    requires Infer(WrittenNode(u, v.ty, v.v)) == Some(Print(v.ty))
    requires ValueOf(u, WrittenNode(u, v.ty, v.v), Print(v.ty)) == Ok(Outside(u, v.ty, v.v))
    requires ScanOne(Print(v.ty), 0).Rem? && TypeFor(Print(v.ty), 0) == v.ty
    ensures ValueOf(u, NodeOf(u, Basic('v'), v), "v") == Ok(Inside(u, Basic('v'), v))
  {
    hide WrittenNode, Outside, ScanOne, TypeFor, Infer;
    assert NodeOf(u, Basic('v'), v) == VariantNode(WrittenNode(u, v.ty, v.v));
  }

  lemma {:induction false} ValuesOfNodes(u: Library, e: Ty, vs: seq<Value>)
    requires Plain(e) && FitAll(e, vs) && !AnyFails(e, vs) && !AnyLooksWrongBelow(e, vs)
    ensures ValuesOf(u, NodesOf(u, e, vs), Print(e)) == Ok(InsideAll(u, e, vs))
    decreases vs, 1
  {
    hide ValueOf, NodeOf, Inside;
    if vs == [] {
    } else {
      ValueOfNode(u, e, vs[0]);
      ValuesOfNodes(u, e, vs[1..]);
      var n, ns := NodeOf(u, e, vs[0]), NodesOf(u, e, vs[1..]);
      assert ([n] + ns)[0] == n && ([n] + ns)[1..] == ns;
    }
  }

  predicate AnyLooksWrongBelow(e: Ty, vs: seq<Value>)
    requires FitAll(e, vs)
  {
    e.Array? && AnyLooksWrong(e, vs)
  }

  lemma {:induction false} ValueOfWritten(u: Library, t: Ty, v: Value)
    requires Fit(t, v) && !Rejected(t, v)
    ensures ValueOf(u, WrittenNode(u, t, v), Print(t)) == Ok(Outside(u, t, v))
    decreases v, 1
  {
    hide ValueOf, SliceSig;
    if Clear(t, v) {
      ClearIsRight(t, v);
      ValueOfNode(u, t, v);
    } else if t.Array? {
      ValuesOfNodes(u, t.elem, v.vs);
      ValueOfArray(u, t, v, {Print(t)});
    } else {
      ValueOfBasic(u, t.c, v);
    }
  }

  // ---------------------------------------------------------------- the text form read back

  /** ParseVariant of String, for every value: rejected, or read with these differences. */
  lemma ParsesString(u: Library, t: Ty, v: Value)
    requires Fit(t, v)
    ensures ParseVariant(u, Written(u, t, v), "") == Some(if Rejected(t, v) then Fail else Ok(Variant(t, Outside(u, t, v))))
  {
    hide Written, WrittenToks, WrittenNode, Outside, Rejected, Infer, ValueOf, TypeFor, ScanOne;
    LexesString(u, t, v);
    MakesWritten(u, t, v, [EOF]);
    if !Rejected(t, v) {
      InfersWritten(u, t, v);
      ValueOfWritten(u, t, v);
      PlainIsValid(t);
    }
  }

  lemma LexesString(u: Library, t: Ty, v: Value)
    requires Fit(t, v)
    ensures Lex(u, Written(u, t, v), 0) == Tokens(WrittenToks(u, t, v) + [EOF])
  {
    hide Written, WrittenToks, Lex;
    var s := Written(u, t, v);
    assert s[0..0 + |s|] == s;
    LexWritten(u, s, 0, t, v);
    AtEnd(u, s);
  }

  lemma AtEnd(u: Library, s: string)
    ensures Lex(u, s, |s|) == Tokens([EOF])
  {
  }

  /** As an element of an array: strings without the characters that the parser misreads; no array that has
      elements but only leafless ones. */
  predicate SafeInside(t: Ty, v: Value)
    requires Fit(t, v)
    decreases v, 0
  {
    if t.Array? then if Leafless(t, v) then v.vs == [] else AllSafeInside(t.elem, v.vs)
    else if t.c == 'v' then SafeOutside(v.ty, v.v)
    else if t.c == 's' || t.c == 'o' || t.c == 'g' then forall k :: 0 <= k < |v.s| ==> Plainly(v.s[k])
    else true
  }

  predicate AllSafeInside(e: Ty, vs: seq<Value>)
    requires FitAll(e, vs)
    decreases vs, 1
  {
    vs == [] || (SafeInside(e, vs[0]) && AllSafeInside(e, vs[1..]))
  }

  predicate SafeOutside(t: Ty, v: Value)
    requires Fit(t, v)
    decreases v, 1
  {
    if t.Array? then AllSafeInside(t.elem, v.vs) else SafeInside(t, v)
  }

  lemma {:induction false} InsideExactly(u: Library, t: Ty, v: Value)
    requires Fit(t, v)
    ensures Inside(u, t, v) == v <==> SafeInside(t, v)
    decreases v, 0
  {
    hide Plainly, Read;
    if t.Array? {
      AllInsideExactly(u, t.elem, v.vs);
    } else if t.c == 'v' {
      OutsideExactly(u, v.ty, v.v);
    } else if t.c == 's' || t.c == 'o' || t.c == 'g' {
      ReadsItself(u, v.s);
    }
  }

  lemma {:induction false} AllInsideExactly(u: Library, e: Ty, vs: seq<Value>)
    requires FitAll(e, vs)
    ensures InsideAll(u, e, vs) == vs <==> AllSafeInside(e, vs)
    decreases vs, 1
  {
    hide Inside, SafeInside;
    if vs == [] {
    } else {
      InsideExactly(u, e, vs[0]);
      AllInsideExactly(u, e, vs[1..]);
      var a, b := Inside(u, e, vs[0]), InsideAll(u, e, vs[1..]);
      assert ([a] + b)[0] == a && ([a] + b)[1..] == b;
      assert vs == [vs[0]] + vs[1..];
    }
  }

  lemma {:induction false} OutsideExactly(u: Library, t: Ty, v: Value)
    requires Fit(t, v)
    ensures Outside(u, t, v) == v <==> SafeOutside(t, v)
    decreases v, 1
  {
    if t.Array? {
      AllInsideExactly(u, t.elem, v.vs);
    } else {
      InsideExactly(u, t, v);
    }
  }

  /** A variant comes back from its text, with its type, if and only if it is safe and has no array of bytes
      with a byte that looks like a float. */
  lemma StringRoundTripExactly(u: Library, t: Ty, v: Value)
    requires Fit(t, v)
    ensures ParseVariant(u, Written(u, t, v), "") == Some(Ok(Variant(t, v))) <==> SafeOutside(t, v) && !Rejected(t, v)
  {
    hide ParseVariant, Written, Outside, SafeOutside, Rejected;
    ParsesString(u, t, v);
    OutsideExactly(u, t, v);
  }

  // ---------------------------------------------------------------- three ways not to come back

  /** "\v" is read as the letter v. */
  lemma VerticalTabIsLost(u: Library)
    ensures ParseVariant(u, Written(u, Basic('s'), Text([11 as char])), "") == Some(Ok(Variant(Basic('s'), Text("v"))))
  {
    hide ParseVariant, Written;
    var v := Text([11 as char]);
    ParsesString(u, Basic('s'), v);
    assert Read(u, v.s) == "v" by {
      assert v.s[1..] == [] && ReadChar(u, v.s[0]) == "v";
      assert Read(u, []) == [];
      assert "v" + [] == "v";
    }
    assert Outside(u, Basic('s'), v) == Text("v");
    assert !Rejected(Basic('s'), v);
  }

  /** @ay [0xe] is rejected: the number looks like a float. */
  lemma ByteWithEIsRejected(u: Library)
    ensures var t, v := Array(Basic('y')), List([Num(14)]); Fit(t, v) && ParseVariant(u, Written(u, t, v), "") == Some(Fail)
  {
    hide ParseVariant, Written;
    var t, v := Array(Basic('y')), List([Num(14)]);
    assert InRange('y', 14) by { assert Pow256(1) == 256 * Pow256(0); }
    assert Fit(t, v) by { assert Fit(Basic('y'), v.vs[0]); }
    assert AnyLooksWrong(t.elem, v.vs) by { assert LooksWrong(Basic('y'), v.vs[0]); }
    ParsesString(u, t, v);
  }

  /** @aaai [[[]]] is read as [[]]. */
  lemma NestedEmptiesAreLost(u: Library)
    ensures var t, v := Array(Array(Array(Basic('i')))), List([List([List([])])]);
            Fit(t, v) && ParseVariant(u, Written(u, t, v), "") == Some(Ok(Variant(t, List([List([])]))))
  {
    hide ParseVariant, Written;
    var t, v := Array(Array(Array(Basic('i')))), List([List([List([])])]);
    var w := v.vs[0];
    var x := w.vs[0];
    assert Fit(t.elem.elem, x);
    assert FitAll(t.elem.elem, w.vs);
    assert Fit(t.elem, w);
    assert Leafless(t.elem.elem, x) && AllLeafless(t.elem.elem, w.vs[1..]);
    assert Leafless(t.elem, w);
    assert !AnyLooksWrong(t.elem.elem, w.vs) && !AnyLooksWrong(t.elem, v.vs) by {
      assert !LooksWrong(t.elem.elem, x) && !AnyLooksWrong(t.elem.elem, w.vs[1..]);
      assert !LooksWrong(t.elem, w) && !AnyLooksWrong(t.elem, v.vs[1..]);
    }
    assert !AnyFails(t.elem, v.vs) by {
      assert !Fails(t.elem.elem, x) && !AnyFails(t.elem.elem, w.vs[1..]);
      assert !Fails(t.elem, w) && !AnyFails(t.elem, v.vs[1..]);
    }
    assert InsideAll(u, t.elem, v.vs) == [List([])] by {
      assert Inside(u, t.elem, w) == List([]);
      assert InsideAll(u, t.elem, v.vs[1..]) == [];
    }
    ParsesString(u, t, v);
  }
}
