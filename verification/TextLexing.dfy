/** Lexing the text of a value gives the tokens of the value. */
module TextLexing {
  import opened Bytes
  import opened Signature
  import opened Values
  import opened TextLexer
  import opened TextPrinter
  import opened Options

  lemma StartsParts(s: string, i: nat, a: string, b: string)
    requires i <= |s| && Starts(s, i, a + b)
    ensures Starts(s, i, a) && i + |a| <= |s| && Starts(s, i + |a|, b)
  {
    assert s[i..i + |a|] == (a + b)[..|a|] == a;
    assert s[i + |a|..i + |a| + |b|] == (a + b)[|a|..] == b;
  }

  lemma StartsAt(s: string, i: nat, w: string, k: nat)
    requires i <= |s| && Starts(s, i, w) && k < |w|
    ensures i + k < |s| && s[i + k] == w[k]
  {
    assert s[i..i + |w|][k] == w[k];
  }

  lemma StartsLater(s: string, i: nat, w: string, k: nat)
    requires i <= |s| && Starts(s, i, w) && k <= |w|
    ensures i + k <= |s| && Starts(s, i + k, w[k..])
  {
    assert w == w[..k] + w[k..];
    StartsParts(s, i, w[..k], w[k..]);
  }

  /** A value's text ends here. */
  predicate Stops(s: string, i: nat)
    requires i <= |s|
  {
    i == |s| || s[i] == ',' || s[i] == ']' || s[i] == '>'
  }

  // ---------------------------------------------------------------- numbers

  predicate AllDigits(k: Digits, w: string)
  {
    forall j :: 0 <= j < |w| ==> IsDigit(k, w[j])
  }

  lemma {:induction false} RunOver(s: string, i: nat, w: string, k: Digits)
    requires i <= |s| && Starts(s, i, w) && AllDigits(k, w) && Stops(s, i + |w|)
    ensures RunEnd(s, i, k) == i + |w|
    decreases |w|
  {
    if w == [] {
    } else {
      StartsAt(s, i, w, 0);
      StartsLater(s, i, w, 1);
      RunOver(s, i + 1, w[1..], k);
    }
  }

  lemma {:induction false} DecimalDigits(n: nat)
    ensures AllDigits(Dec, Decimal(n)) && (Decimal(n)[0] == '0' <==> n == 0) && (n == 0 ==> |Decimal(n)| == 1)
    decreases n
  {
    if n < 10 {
    } else {
      DecimalDigits(n / 10);
    }
  }

  lemma DecimalEnds(s: string, i: nat, n: nat)
    requires i <= |s| && Starts(s, i, Decimal(n)) && Stops(s, i + |Decimal(n)|)
    ensures var k := Base(s, i); RunEnd(s, Prefix(s, i), k) == i + |Decimal(n)|
    ensures i < |s| && '0' <= s[i] <= '9'
  {
    var w := Decimal(n);
    DecimalDigits(n);
    StartsAt(s, i, w, 0);
    if n > 0 {
      RunOver(s, i, w, Dec);
    }
  }

  lemma NumberStops(s: string, i: nat, k: Digits)
    requires i <= |s| && Stops(s, i)
    ensures ExponentEnd(s, FractionEnd(s, i, k)) == i
  {
  }

  lemma SignedEnds(s: string, i: nat, n: int)
    requires i <= |s| && Starts(s, i, Signed(n)) && Stops(s, i + |Signed(n)|)
    ensures NumberEnd(s, i) == i + |Signed(n)|
    ensures i < |s| && (IsSign(s[i]) || '0' <= s[i] <= '9')
  {
    hide Decimal, RunEnd, NumberEnd, Starts, Stops, Base, Prefix;
    if n < 0 {
      StartsAt(s, i, Signed(n), 0);
      StartsLater(s, i, Signed(n), 1);
      assert Signed(n)[1..] == Decimal(-n);
      DecimalEnds(s, i + 1, -n);
      DigitsEnd(s, i, i + 1, i + |Signed(n)|);
    } else {
      DecimalEnds(s, i, n);
      DigitsEnd(s, i, i, i + |Signed(n)|);
    }
  }

  /** A number of a sign, up to a, and digits up to e, where a value ends. */
  lemma DigitsEnd(s: string, i: nat, a: nat, e: nat)
    requires i <= |s| && a == SkipSign(s, i) && e <= |s| && Stops(s, e)
    requires RunEnd(s, Prefix(s, a), Base(s, a)) == e
    ensures NumberEnd(s, i) == e
  {
    hide RunEnd, Base, Prefix, SkipSign, Stops, FractionEnd, ExponentEnd;
    NumberStops(s, e, Base(s, a));
  }

  lemma HexEnds(s: string, i: nat, n: nat)
    requires n < 256 && i <= |s| && Starts(s, i, HexByte(n)) && Stops(s, i + |HexByte(n)|)
    ensures NumberEnd(s, i) == i + |HexByte(n)|
    ensures i < |s| && '0' <= s[i] <= '9'
  {
    var w := HexByte(n);
    StartsAt(s, i, w, 0);
    StartsAt(s, i, w, 1);
    StartsLater(s, i, w, 2);
    RunOver(s, i + 2, w[2..], Hex);
    NumberStops(s, i + |w|, Hex);
  }

  lemma LexNumberText(u: Library, s: string, i: nat, w: string)
    requires i < |s| && (IsSign(s[i]) || '0' <= s[i] <= '9')
    requires w != [] && Starts(s, i, w) && Stops(s, i + |w|) && NumberEnd(s, i) == i + |w|
    ensures Lex(u, s, i) == Then(Number(w), Lex(u, s, i + |w|))
  {
    hide NumberEnd;
    assert Lex(u, s, i) == LexNumber(u, s, i);
  }

  // ---------------------------------------------------------------- strings

  predicate Harmless(w: string)
  {
    forall j :: 0 <= j < |w| ==> w[j] != '"' && w[j] != '\\'
  }

  lemma {:induction false} QuotedOver(s: string, i: nat, w: string)
    requires i <= |s| && Starts(s, i, w) && Harmless(w)
    ensures QuotedEnd(s, i, '"') == QuotedEnd(s, i + |w|, '"')
    decreases |w|
  {
    if w == [] {
    } else {
      StartsAt(s, i, w, 0);
      StartsLater(s, i, w, 1);
      QuotedOver(s, i + 1, w[1..]);
    }
  }

  lemma {:induction false} PaddedHarmless(n: nat, k: nat)
    ensures Harmless(Padded(n, k))
    decreases k
  {
    if k == 0 {
    } else {
      PaddedHarmless(n / 16, k - 1);
    }
  }

  /** An escape is a backslash, any character and harmless ones, or one harmless character. */
  lemma EscapeShape(u: Library, c: char)
    ensures var e := Escape(u, c);
            if e[0] == '\\' then |e| >= 2 && Harmless(e[2..]) else Harmless(e)
  {
    hide Padded;
    PaddedHarmless(c as int, 2);
    PaddedHarmless(c as int, 4);
    PaddedHarmless(c as int, 8);
  }

  lemma QuotedEscape(u: Library, s: string, i: nat, c: char)
    requires i <= |s| && Starts(s, i, Escape(u, c))
    ensures QuotedEnd(s, i, '"') == QuotedEnd(s, i + |Escape(u, c)|, '"')
  {
    hide Escape;
    var e := Escape(u, c);
    EscapeShape(u, c);
    if e[0] == '\\' {
      StartsAt(s, i, e, 0);
      StartsAt(s, i, e, 1);
      StartsLater(s, i, e, 2);
      QuotedOver(s, i + 2, e[2..]);
    } else {
      QuotedOver(s, i, e);
    }
  }

  lemma {:induction false} QuotedAll(u: Library, s: string, i: nat, t: string)
    requires i <= |s| && Starts(s, i, EscapeAll(u, t) + ['"'])
    ensures QuotedEnd(s, i, '"') == Some(i + |EscapeAll(u, t)| + 1)
    decreases |t|
  {
    hide Escape;
    if t == [] {
      StartsAt(s, i, ['"'], 0);
    } else {
      var a, b := Escape(u, t[0]), EscapeAll(u, t[1..]);
      Assoc(a, b, ['"']);
      StartsParts(s, i, a, b + ['"']);
      QuotedEscape(u, s, i, t[0]);
      QuotedAll(u, s, i + |a|, t[1..]);
    }
  }

  lemma LexQuote(u: Library, s: string, i: nat, t: string)
    requires i <= |s| && Starts(s, i, Quote(u, t))
    ensures Lex(u, s, i) == Then(Str(Quote(u, t)), Lex(u, s, i + |Quote(u, t)|))
  {
    hide EscapeAll, Lex, LexString, Starts, QuotedEnd;
    var w := Quote(u, t);
    StartsAt(s, i, w, 0);
    StartsParts(s, i, ['"'], EscapeAll(u, t) + ['"']);
    QuotedAll(u, s, i + 1, t);
    LexStringText(u, s, i, w);
  }

  lemma LexStringText(u: Library, s: string, i: nat, w: string)
    requires i < |s| && s[i] == '"' && Starts(s, i, w) && QuotedEnd(s, i + 1, '"') == Some(i + |w|)
    ensures Lex(u, s, i) == Then(Str(w), Lex(u, s, i + |w|))
  {
    hide QuotedEnd, Then;
    assert Lex(u, s, i) == LexString(u, s, i);
  }

  // ---------------------------------------------------------------- type annotations

  lemma {:induction false} PrintHasNoSpace(u: Library, t: Ty)
    requires Plain(t)
    ensures forall j :: 0 <= j < |Print(t)| ==> !IsSpace(u, Print(t)[j])
  {
    if !t.Array? {
    } else {
      PrintHasNoSpace(u, t.elem);
    }
  }

  lemma {:induction false} WordOver(u: Library, s: string, i: nat, w: string)
    requires i <= |s| && Starts(s, i, w) && forall j :: 0 <= j < |w| ==> !IsSpace(u, w[j])
    requires i + |w| == |s| || IsSpace(u, s[i + |w|])
    ensures WordEnd(u, s, i) == i + |w|
    decreases |w|
  {
    hide IsSpace;
    if w == [] {
    } else {
      StartsAt(s, i, w, 0);
      StartsLater(s, i, w, 1);
      WordOver(u, s, i + 1, w[1..]);
    }
  }

  lemma {:induction false} PlainLettered(t: Ty)
    requires Plain(t)
    ensures Lettered(t) && |Print(t)| == Nest(t) + 1
  {
    if !t.Array? {
    } else {
      PlainLettered(t.elem);
    }
  }

  lemma PlainIsValid(t: Ty)
    requires Plain(t) && Nest(t) <= MAX_NESTING
    ensures ScanOne(Print(t), 0) == Rem([]) && ValidSignature(Print(t)) && TypeFor(Print(t), 0) == t
  {
    hide ScanOne, Lettered, TypeFor;
    PlainLettered(t);
    TypeForPrint(t, [], 0);
    assert Print(t) + [] == Print(t);
    assert ScanList([], 0) == Rem([]);
  }

  lemma MarkWord(u: Library, s: string, i: nat, t: Ty)
    requires Plain(t) && i <= |s| && Starts(s, i, Mark(t) + [' '])
    ensures var e := i + |Mark(t)|;
            && i < e < |s| && s[i] == '@' && s[e] == ' '
            && WordEnd(u, s, i + 1) == e && s[i + 1..e] == Print(t) && s[i..e] == Mark(t)
  {
    hide Print;
    var e := i + |Mark(t)|;
    StartsParts(s, i, Mark(t), [' ']);
    StartsAt(s, i, Mark(t), 0);
    StartsParts(s, i, ['@'], Print(t));
    StartsAt(s, e, [' '], 0);
    PrintHasNoSpace(u, t);
    WordOver(u, s, i + 1, Print(t));
  }

  lemma LexMark(u: Library, s: string, i: nat, t: Ty)
    requires Plain(t) && Nest(t) <= MAX_NESTING && i <= |s| && Starts(s, i, Mark(t) + [' '])
    ensures i + |Mark(t)| + 1 <= |s| && Lex(u, s, i) == Then(Type(Mark(t)), Lex(u, s, i + |Mark(t)| + 1))
  {
    hide ValidSignature, Print, WordEnd, Starts, Mark, LexString, LexNumber, LexByteString;
    var e := i + |Mark(t)|;
    MarkWord(u, s, i, t);
    PlainIsValid(t);
    assert Lex(u, s, i) == LexType(u, s, i);
    assert Lex(u, s, e) == Lex(u, s, e + 1);
  }

  // ---------------------------------------------------------------- values

  function Toks(u: Library, t: Ty, v: Value): (ts: seq<Token>)
    requires Fit(t, v)
    decreases v, 0
  {
    if t.Array? then [Punct('[')] + (ElemToks(u, t.elem, v.vs) + [Punct(']')])
    else if t.c == 'v' then [Punct('<')] + (WrittenToks(u, v.ty, v.v) + [Punct('>')])
    else if t.c == 'b' then [Bool(BasicForm(u, t.c, v))]
    else if v.Num? then [Number(BasicForm(u, t.c, v))]
    else [Str(BasicForm(u, t.c, v))]
  }

  function ElemToks(u: Library, e: Ty, vs: seq<Value>): seq<Token>
    requires FitAll(e, vs)
    decreases vs, 1
  {
    if vs == [] then []
    else Toks(u, e, vs[0]) + if |vs| == 1 then [] else [Punct(',')] + ElemToks(u, e, vs[1..])
  }

  function WrittenToks(u: Library, t: Ty, v: Value): seq<Token>
    requires Fit(t, v)
    decreases v, 1
  {
    if Clear(t, v) then Toks(u, t, v) else [Type(Mark(t))] + Toks(u, t, v)
  }

  lemma PrependTwice(a: seq<Token>, b: seq<Token>, l: Lexed)
    ensures Prepend(a + b, l) == Prepend(a, Prepend(b, l))
  {
    if l.Tokens? {
      assert (a + b) + l.ts == a + (b + l.ts);
    }
  }

  lemma LexPunct(u: Library, s: string, i: nat, c: char)
    requires i < |s| && s[i] == c && IsPunct(c)
    ensures Lex(u, s, i) == Prepend([Punct(c)], Lex(u, s, i + 1))
  {
  }

  lemma LexBool(u: Library, s: string, i: nat, b: bool)
    requires i <= |s| && Starts(s, i, if b then "true" else "false")
    ensures var w := if b then "true" else "false"; Lex(u, s, i) == Prepend([Bool(w)], Lex(u, s, i + |w|))
  {
    var w := if b then "true" else "false";
    StartsAt(s, i, w, 0);
    assert "true"[0] == 't' && "false"[0] == 'f';
    if Starts(s, i, "true") {
      StartsAt(s, i, "true", 0);
    }
  }

  lemma LexBasic(u: Library, s: string, i: nat, c: byte, v: Value)
    requires c != 'v' && Fit(Basic(c), v) && i <= |s|
    requires Starts(s, i, BasicForm(u, c, v)) && Stops(s, i + |BasicForm(u, c, v)|)
    ensures Lex(u, s, i) == Prepend(Toks(u, Basic(c), v), Lex(u, s, i + |BasicForm(u, c, v)|))
  {
    hide Lex, Quote, Signed, HexByte, NumberEnd;
    var w := BasicForm(u, c, v);
    if c == 'b' {
      LexBool(u, s, i, v.b);
    } else if c == 'y' {
      ByteRange(v.n);
      HexEnds(s, i, v.n);
      LexNumberText(u, s, i, w);
    } else if c == 's' || c == 'o' || c == 'g' {
      LexQuote(u, s, i, v.s);
    } else {
      SignedEnds(s, i, v.n);
      LexNumberText(u, s, i, w);
    }
  }

  lemma ArrayParts(u: Library, s: string, i: nat, t: Ty, v: Value)
    requires t.Array? && Fit(t, v) && i <= |s| && Starts(s, i, Form(u, t, v))
    ensures i < |s| && Lex(u, s, i) == Prepend([Punct('[')], Lex(u, s, i + 1))
    ensures Starts(s, i + 1, Elems(u, t.elem, v.vs) + [']'])
    ensures |Form(u, t, v)| == |Elems(u, t.elem, v.vs)| + 2
    ensures Toks(u, t, v) == [Punct('[')] + (ElemToks(u, t.elem, v.vs) + [Punct(']')])
  {
    hide Lex, Starts, Elems, ElemToks;
    StartsAt(s, i, Form(u, t, v), 0);
    LexPunct(u, s, i, '[');
    StartsParts(s, i, ['['], Elems(u, t.elem, v.vs) + [']']);
  }

  lemma VariantParts(u: Library, s: string, i: nat, v: Value)
    requires Fit(Basic('v'), v) && i <= |s| && Starts(s, i, Form(u, Basic('v'), v))
    ensures var w := Written(u, v.ty, v.v);
            && i + |w| + 2 <= |s| && |Form(u, Basic('v'), v)| == |w| + 2
            && Starts(s, i + 1, w) && Stops(s, i + 1 + |w|)
            && Lex(u, s, i) == Prepend([Punct('<')], Lex(u, s, i + 1))
            && Lex(u, s, i + 1 + |w|) == Prepend([Punct('>')], Lex(u, s, i + 2 + |w|))
    ensures Toks(u, Basic('v'), v) == [Punct('<')] + (WrittenToks(u, v.ty, v.v) + [Punct('>')])
  {
    hide Lex, Starts, Stops, Written, WrittenToks;
    var w := Written(u, v.ty, v.v);
    StartsAt(s, i, Form(u, Basic('v'), v), 0);
    LexPunct(u, s, i, '<');
    StartsParts(s, i, ['<'], w + ['>']);
    StartsParts(s, i + 1, w, ['>']);
    StartsAt(s, i + 1 + |w|, ['>'], 0);
    LexPunct(u, s, i + 1 + |w|, '>');
    StopsAt(s, i + 1 + |w|);
  }

  lemma {:induction false} LexForm(u: Library, s: string, i: nat, t: Ty, v: Value)
    requires Fit(t, v) && i <= |s| && Starts(s, i, Form(u, t, v)) && Stops(s, i + |Form(u, t, v)|)
    ensures Lex(u, s, i) == Prepend(Toks(u, t, v), Lex(u, s, i + |Form(u, t, v)|))
    decreases v, 0
  {
    hide Lex, Stops, Starts, Elems, ElemToks, Written, WrittenToks, BasicForm, Prepend;
    if t.Array? {
      ArrayParts(u, s, i, t, v);
      LexElems(u, s, i + 1, t.elem, v.vs);
      Wrapped(u, s, i, '[', ElemToks(u, t.elem, v.vs), ']', |Elems(u, t.elem, v.vs)|);
    } else if t.c == 'v' {
      var w := Written(u, v.ty, v.v);
      VariantParts(u, s, i, v);
      LexWritten(u, s, i + 1, v.ty, v.v);
      PrependTwice(WrittenToks(u, v.ty, v.v), [Punct('>')], Lex(u, s, i + 2 + |w|));
      Wrapped(u, s, i, '<', WrittenToks(u, v.ty, v.v), '>', |w|);
    } else {
      LexBasic(u, s, i, t.c, v);
    }
  }

  lemma StopsAt(s: string, i: nat)
    requires i < |s| && (s[i] == ',' || s[i] == ']' || s[i] == '>')
    ensures Stops(s, i)
  {
  }

  lemma Wrapped(u: Library, s: string, i: nat, a: char, ts: seq<Token>, b: char, n: nat)
    requires i + n + 2 <= |s|
    requires Lex(u, s, i) == Prepend([Punct(a)], Lex(u, s, i + 1))
    requires Lex(u, s, i + 1) == Prepend(ts + [Punct(b)], Lex(u, s, i + n + 2))
    ensures Lex(u, s, i) == Prepend([Punct(a)] + (ts + [Punct(b)]), Lex(u, s, i + n + 2))
  {
    hide Lex;
    PrependTwice([Punct(a)], ts + [Punct(b)], Lex(u, s, i + n + 2));
  }

  /** The elements of an array and the bracket behind them. */
  lemma {:induction false} LexElems(u: Library, s: string, i: nat, e: Ty, vs: seq<Value>)
    requires FitAll(e, vs) && i <= |s| && Starts(s, i, Elems(u, e, vs) + [']'])
    ensures i + |Elems(u, e, vs)| + 1 <= |s|
    ensures Lex(u, s, i) == Prepend(ElemToks(u, e, vs) + [Punct(']')], Lex(u, s, i + |Elems(u, e, vs)| + 1))
    decreases vs, 1
  {
    hide Lex, Stops, Starts, Form, Toks, Prepend;
    if |vs| <= 1 {
      LastBracket(u, s, i, e, vs);
      if |vs| == 1 {
        LexForm(u, s, i, e, vs[0]);
        PrependTwice(Toks(u, e, vs[0]), [Punct(']')], Lex(u, s, i + |Elems(u, e, vs)| + 1));
      }
    } else {
      LexMore(u, s, i, e, vs);
      LexForm(u, s, i, e, vs[0]);
      LexElems(u, s, i + |Form(u, e, vs[0])| + 2, e, vs[1..]);
      hide Elems, ElemToks;
      ElemsOf(u, e, vs);
      Joined(Toks(u, e, vs[0]), ElemToks(u, e, vs[1..]), Lex(u, s, i + |Elems(u, e, vs)| + 1));
    }
  }

  lemma LastBracket(u: Library, s: string, i: nat, e: Ty, vs: seq<Value>)
    requires FitAll(e, vs) && i <= |s| && Starts(s, i, Elems(u, e, vs) + [']']) && |vs| <= 1
    ensures var last := i + |Elems(u, e, vs)|;
            && last + 1 <= |s| && Starts(s, i, Elems(u, e, vs)) && Stops(s, last)
            && Lex(u, s, last) == Prepend([Punct(']')], Lex(u, s, last + 1))
    ensures vs != [] ==> Elems(u, e, vs) == Form(u, e, vs[0]) && ElemToks(u, e, vs) == Toks(u, e, vs[0])
    ensures vs == [] ==> Elems(u, e, vs) == [] && ElemToks(u, e, vs) + [Punct(']')] == [Punct(']')]
  {
    hide Lex, Stops, Starts, Form, Toks;
    var w := Elems(u, e, vs);
    StartsParts(s, i, w, [']']);
    StartsAt(s, i + |w|, [']'], 0);
    StopsAt(s, i + |w|);
    LexPunct(u, s, i + |w|, ']');
  }

  lemma Joined(a: seq<Token>, b: seq<Token>, l: Lexed)
    ensures Prepend(a, Prepend([Punct(',')], Prepend(b + [Punct(']')], l)))
         == Prepend((a + ([Punct(',')] + b)) + [Punct(']')], l)
  {
    var c := [Punct(']')];
    PrependTwice([Punct(',')], b + c, l);
    PrependTwice(a, [Punct(',')] + (b + c), l);
    assert (a + ([Punct(',')] + b)) + c == a + ([Punct(',')] + (b + c));
  }

  /** Between two elements: a comma and a space. */
  lemma LexMore(u: Library, s: string, i: nat, e: Ty, vs: seq<Value>)
    requires FitAll(e, vs) && i <= |s| && Starts(s, i, Elems(u, e, vs) + [']']) && |vs| > 1
    ensures var f := Form(u, e, vs[0]);
            && Starts(s, i, f) && i + |f| + 2 <= |s| && Stops(s, i + |f|)
            && Starts(s, i + |f| + 2, Elems(u, e, vs[1..]) + [']'])
            && Lex(u, s, i + |f|) == Prepend([Punct(',')], Lex(u, s, i + |f| + 2))
  {
    hide Elems, Form, Starts, Lex, Stops;
    var f, more := Form(u, e, vs[0]), Elems(u, e, vs[1..]);
    assert Elems(u, e, vs) == f + ([',', ' '] + more) by { ElemsOf(u, e, vs); }
    assert (f + ([',', ' '] + more)) + [']'] == f + ([',', ' '] + (more + [']']));
    StartsParts(s, i, f, [',', ' '] + (more + [']']));
    StartsParts(s, i + |f|, [',', ' '], more + [']']);
    StartsAt(s, i + |f|, [',', ' '], 0);
    StartsAt(s, i + |f|, [',', ' '], 1);
    StopsAt(s, i + |f|);
    LexPunct(u, s, i + |f|, ',');
    LexSpace(u, s, i + |f| + 1);
  }

  lemma LexSpace(u: Library, s: string, i: nat)
    requires i < |s| && s[i] == ' '
    ensures Lex(u, s, i) == Lex(u, s, i + 1)
  {
  }

  lemma ElemsOf(u: Library, e: Ty, vs: seq<Value>)
    requires FitAll(e, vs) && |vs| > 1
    ensures Elems(u, e, vs) == Form(u, e, vs[0]) + ([',', ' '] + Elems(u, e, vs[1..]))
    ensures ElemToks(u, e, vs) == Toks(u, e, vs[0]) + ([Punct(',')] + ElemToks(u, e, vs[1..]))
  {
  }

  lemma {:induction false} LexWritten(u: Library, s: string, i: nat, t: Ty, v: Value)
    requires Fit(t, v) && i <= |s| && Starts(s, i, Written(u, t, v)) && Stops(s, i + |Written(u, t, v)|)
    ensures Lex(u, s, i) == Prepend(WrittenToks(u, t, v), Lex(u, s, i + |Written(u, t, v)|))
    decreases v, 1
  {
    hide Lex, Stops, Starts;
    if Clear(t, v) {
      LexForm(u, s, i, t, v);
    } else {
      var f := Form(u, t, v);
      Assoc(Mark(t), [' '], f);
      StartsParts(s, i, Mark(t) + [' '], f);
      LexMark(u, s, i, t);
      LexForm(u, s, i + |Mark(t)| + 1, t, v);
      PrependTwice([Type(Mark(t))], Toks(u, t, v), Lex(u, s, i + |Written(u, t, v)|));
    }
  }
}
