/** Tokens of the text form of variants (variant_lexer.go). A text is a sequence of Unicode characters. */
module TextLexer {
  import opened Signature
  import opened Options

  /** The character classes beyond ASCII, and the floating-point numbers, of the Go library. */
  datatype Library = Library(
    printable: char -> bool, space: char -> bool, number: char -> bool, letter: char -> bool,
    parseFloat: string -> Option<int>)

  datatype Token = EOF | Error | Number(s: string) | Str(s: string) | Bool(s: string) | Punct(c: char)
                 | Type(s: string) | ByteString(s: string)

  /** Endless: the lexer emits empty number tokens for ever. Panics: ParseSignature slices an empty dict body. */
  datatype Lexed = Tokens(ts: seq<Token>) | Endless | Panics

  const ASCII := 128 as char

  predicate IsPunct(c: char)
  {
    c == '[' || c == ']' || c == '{' || c == '}' || c == '<' || c == '>' || c == ':' || c == ','
  }

  predicate IsQuote(c: char)
  {
    c == '\'' || c == '"'
  }

  predicate IsSign(c: char)
  {
    c == '+' || c == '-'
  }

  predicate IsSpace(u: Library, c: char)
  {
    if c < ASCII then c == ' ' || 9 as char <= c <= 13 as char else u.space(c)
  }

  predicate IsNumeral(u: Library, c: char)
  {
    if c < ASCII then '0' <= c <= '9' else u.number(c)
  }

  predicate IsLetter(u: Library, c: char)
  {
    if c < ASCII then 'a' <= c <= 'z' || 'A' <= c <= 'Z' else u.letter(c)
  }

  datatype Digits = Oct | Dec | Hex

  predicate IsDigit(k: Digits, c: char)
  {
    match k
    case Oct => '0' <= c <= '7'
    case Dec => '0' <= c <= '9'
    case Hex => '0' <= c <= '9' || 'a' <= c <= 'f' || 'A' <= c <= 'F'
  }

  // ---------------------------------------------------------------- where a token ends

  /** The end of the run of digits from i on. */
  function RunEnd(s: string, i: nat, k: Digits): (e: nat)
    requires i <= |s|
    ensures i <= e <= |s|
    decreases |s| - i
  {
    if i < |s| && IsDigit(k, s[i]) then RunEnd(s, i + 1, k) else i
  }

  /** After an optional character. */
  function Skip(s: string, i: nat, c: char): (e: nat)
    requires i <= |s|
    ensures i <= e <= |s|
  {
    if i < |s| && s[i] == c then i + 1 else i
  }

  function SkipSign(s: string, i: nat): (e: nat)
    requires i <= |s|
    ensures i <= e <= |s|
  {
    if i < |s| && IsSign(s[i]) then i + 1 else i
  }

  function Base(s: string, i: nat): Digits
    requires i <= |s|
  {
    if i < |s| && s[i] == '0' then if i + 1 < |s| && s[i + 1] == 'x' then Hex else Oct else Dec
  }

  function Prefix(s: string, i: nat): (e: nat)
    requires i <= |s|
    ensures i <= e <= |s|
  {
    if i < |s| && s[i] == '0' then Skip(s, i + 1, 'x') else i
  }

  function FractionEnd(s: string, i: nat, k: Digits): (e: nat)
    requires i <= |s|
    ensures i <= e <= |s|
  {
    if i < |s| && s[i] == '.' then RunEnd(s, i + 1, k) else i
  }

  function ExponentEnd(s: string, i: nat): (e: nat)
    requires i <= |s|
    ensures i <= e <= |s|
  {
    if i < |s| && (s[i] == 'e' || s[i] == 'E') then RunEnd(s, SkipSign(s, i + 1), Dec) else i
  }

  /** Sign, prefix, digits, fraction, exponent: all of them optional. */
  function NumberEnd(s: string, i: nat): (e: nat)
    requires i <= |s|
    ensures i <= e <= |s|
  {
    var a := SkipSign(s, i);
    var k := Base(s, a);
    ExponentEnd(s, FractionEnd(s, RunEnd(s, Prefix(s, a), k), k))
  }

  /** Behind the quote q that ends a string, from i on; a backslash protects any character. */
  function QuotedEnd(s: string, i: nat, q: char): (e: Option<nat>)
    requires i <= |s|
    ensures e.Some? ==> i < e.value <= |s|
    decreases |s| - i
  {
    if i == |s| then None
    else if s[i] == '\\' then if i + 1 == |s| then None else QuotedEnd(s, i + 2, q)
    else if s[i] == q then Some(i + 1)
    else QuotedEnd(s, i + 1, q)
  }

  /** The end of the word from i on: a space or the end of the text. */
  function WordEnd(u: Library, s: string, i: nat): (e: nat)
    requires i <= |s|
    ensures i <= e <= |s|
    decreases |s| - i
  {
    if i < |s| && !IsSpace(u, s[i]) then WordEnd(u, s, i + 1) else i
  }

  /** varTypeMap. The entry for double is no D-Bus type. */
  function TypeNamed(word: string): Option<string>
  {
    if word == "boolean" then Some("b") else if word == "byte" then Some("y")
    else if word == "int16" then Some("n") else if word == "uint16" then Some("q")
    else if word == "int32" then Some("i") else if word == "uint32" then Some("u")
    else if word == "int64" then Some("x") else if word == "uint64" then Some("t")
    else if word == "double" then Some("f") else if word == "string" then Some("s")
    else if word == "objectpath" then Some("o") else if word == "signature" then Some("g")
    else None
  }

  /** The length of a text in bytes. */
  function ByteLength(s: string): (n: nat)
    ensures n >= |s|
  {
    if s == [] then 0
    else (if s[0] < ASCII then 1 else if s[0] < 0x800 as char then 2 else if s[0] < 0x10000 as char then 3 else 4)
         + ByteLength(s[1..])
  }

  /** Behind an @, a signature short enough to be scanned whose scan comes to the empty body of a dict. */
  predicate PanicsOn(word: string)
  {
    ByteLength(word) <= MAX_SIGNATURE && ScanList(word, 0) == Bad(SliceOutOfRange)
  }

  predicate Starts(s: string, i: nat, w: string)
    requires i <= |s|
  {
    i + |w| <= |s| && s[i..i + |w|] == w
  }

  // ---------------------------------------------------------------- tokens

  function Then(t: Token, l: Lexed): Lexed
  {
    match l
    case Tokens(ts) => Tokens([t] + ts)
    case _ => l
  }

  const FAILED := Tokens([Error])

  /** The tokens of s from i on. */
  function Lex(u: Library, s: string, i: nat): Lexed
    requires i <= |s|
    decreases |s| - i
  {
    if i == |s| then Tokens([EOF])
    else
      var c := s[i];
      if IsPunct(c) then Then(Punct(c), Lex(u, s, i + 1))
      else if IsQuote(c) then LexString(u, s, i)
      else if c == '@' then LexType(u, s, i)
      else if IsSpace(u, c) then Lex(u, s, i + 1)
      else if IsNumeral(u, c) || IsSign(c) then LexNumber(u, s, i)
      else if c == 'b' && i + 1 < |s| && IsQuote(s[i + 1]) then LexByteString(u, s, i)
      else if Starts(s, i, "true") then Then(Bool("true"), Lex(u, s, i + 4))
      else if Starts(s, i, "false") then Then(Bool("false"), Lex(u, s, i + 5))
      else LexType(u, s, i)
  }

  function LexString(u: Library, s: string, i: nat): Lexed
    requires i < |s|
    decreases |s| - i, 0
  {
    match QuotedEnd(s, i + 1, s[i])
    case None => FAILED
    case Some(e) => Then(Str(s[i..e]), Lex(u, s, e))
  }

  function LexByteString(u: Library, s: string, i: nat): Lexed
    requires i + 1 < |s|
    decreases |s| - i, 0
  {
    match QuotedEnd(s, i + 2, s[i + 1])
    case None => FAILED
    case Some(e) => Then(ByteString(s[i..e]), Lex(u, s, e))
  }

  function LexNumber(u: Library, s: string, i: nat): Lexed
    requires i < |s|
    decreases |s| - i, 0
  {
    var e := NumberEnd(s, i);
    if e < |s| && IsLetter(u, s[e]) then FAILED
    else if e == i then Endless
    else Then(Number(s[i..e]), Lex(u, s, e))
  }

  function LexType(u: Library, s: string, i: nat): Lexed
    requires i < |s| && !IsSpace(u, s[i])
    decreases |s| - i, 0
  {
    var at := s[i] == '@';
    var e := WordEnd(u, s, Skip(s, i, '@'));
    if if at then ValidSignature(s[i + 1..e]) else TypeNamed(s[i..e]).Some?
    then Then(Type(s[i..e]), Lex(u, s, e))
    else if at && PanicsOn(s[i + 1..e]) then Panics
    else FAILED
  }

  // ---------------------------------------------------------------- when the lexer ends

  /** A numeral that is no digit: unicode.IsNumber accepts it, the number lexer does not. */
  predicate IsOddNumeral(u: Library, c: char)
  {
    ASCII <= c && u.number(c)
  }

  /** The end of the word at i, which may start with an @. */
  function TypeEnd(u: Library, s: string, i: nat): (e: nat)
    requires i < |s|
    ensures i <= e <= |s| && (s[i] == '@' || !IsSpace(u, s[i]) ==> i < e)
  {
    WordEnd(u, s, Skip(s, i, '@'))
  }

  /** Where the lexer stands behind the token or the space at i; None if it goes no further. */
  function Resumes(u: Library, s: string, i: nat): (e: Option<nat>)
    requires i < |s|
    ensures e.Some? ==> i < e.value <= |s|
  {
    var c := s[i];
    if IsPunct(c) then Some(i + 1)
    else if IsQuote(c) then QuotedEnd(s, i + 1, c)
    else if c == '@' then ResumesBehind(s, i, TypeEnd(u, s, i), ValidSignature(s[i + 1..TypeEnd(u, s, i)]))
    else if IsSpace(u, c) then Some(i + 1)
    else if IsNumeral(u, c) || IsSign(c) then
      var e := NumberEnd(s, i);
      ResumesBehind(s, i, e, e > i && !(e < |s| && IsLetter(u, s[e])))
    else if c == 'b' && i + 1 < |s| && IsQuote(s[i + 1]) then QuotedEnd(s, i + 2, s[i + 1])
    else if Starts(s, i, "true") then Some(i + 4)
    else if Starts(s, i, "false") then Some(i + 5)
    else ResumesBehind(s, i, TypeEnd(u, s, i), TypeNamed(s[i..TypeEnd(u, s, i)]).Some?)
  }

  function ResumesBehind(s: string, i: nat, e: nat, good: bool): (r: Option<nat>)
    requires i <= e <= |s| && (good ==> i < e)
    ensures r.Some? ==> i < r.value <= |s|
  {
    if good then Some(e) else None
  }

  /** j is where a token or space starts, or the end, when the lexer starts at i: not inside a token. */
  predicate TokenStart(u: Library, s: string, i: nat, j: nat)
    requires i <= |s|
    decreases |s| - i
  {
    i == j || (i < |s| && Resumes(u, s, i).Some? && TokenStart(u, s, Resumes(u, s, i).value, j))
  }

  /** The number lexer takes nothing here and finds no letter. */
  predicate Stalls(u: Library, s: string, j: nat)
  {
    j < |s| && IsOddNumeral(u, s[j]) && !u.space(s[j]) && !u.letter(s[j])
  }

  /** A signature with an empty dict body is announced here. */
  predicate Breaks(u: Library, s: string, j: nat)
  {
    j < |s| && s[j] == '@' && PanicsOn(s[j + 1..TypeEnd(u, s, j)])
  }

  lemma NumberMoves(u: Library, s: string, i: nat)
    requires i < |s|
    ensures IsSign(s[i]) || '0' <= s[i] <= '9' ==> i < NumberEnd(s, i)
    ensures IsOddNumeral(u, s[i]) ==> NumberEnd(s, i) == i
  {
  }

  lemma Past(u: Library, s: string)
    ensures !Stalls(u, s, |s|) && !Breaks(u, s, |s|)
  {
  }

  /** l ends badly exactly as m does. */
  predicate SameEnd(l: Lexed, m: Lexed)
  {
    (l == Endless <==> m == Endless) && (l == Panics <==> m == Panics)
  }

  /** One step of the lexer: it goes on as from e, or ends here. */
  predicate StepsTo(u: Library, s: string, i: nat, l: Lexed, e: Option<nat>)
    requires e.Some? ==> e.value <= |s|
  {
    match e
    case Some(e) => !Stalls(u, s, i) && !Breaks(u, s, i) && SameEnd(l, Lex(u, s, e))
    case None => (l == Endless <==> Stalls(u, s, i)) && (l == Panics <==> Breaks(u, s, i))
  }

  lemma LexStep(u: Library, s: string, i: nat)
    requires i < |s|
    ensures StepsTo(u, s, i, Lex(u, s, i), Resumes(u, s, i))
  {
    hide StepsTo, QuotedEnd, LexNumber, LexType, LexString, LexByteString, TypeEnd, TypeNamed, ValidSignature, NumberEnd;
    var c := s[i];
    var r := Resumes(u, s, i);
    if IsQuote(c) {
      StringStep(u, s, i);
    } else if c == '@' {
      TypeStep(u, s, i);
    } else if IsPunct(c) || IsSpace(u, c) {
      PlainStep(u, s, i, i + 1, Punct(c));
    } else if IsNumeral(u, c) || IsSign(c) {
      NumberStep(u, s, i);
    } else if c == 'b' && i + 1 < |s| && IsQuote(s[i + 1]) {
      ByteStringStep(u, s, i);
    } else if Starts(s, i, "true") {
      PlainStep(u, s, i, i + 4, Bool("true"));
    } else if Starts(s, i, "false") {
      PlainStep(u, s, i, i + 5, Bool("false"));
    } else {
      TypeStep(u, s, i);
    }
  }

  /** Punctuation, spaces and bools. */
  lemma PlainStep(u: Library, s: string, i: nat, e: nat, t: Token)
    requires i < |s| && e <= |s| && s[i] != '@' && (IsPunct(s[i]) || IsSpace(u, s[i]) || !IsNumeral(u, s[i]))
    ensures StepsTo(u, s, i, Lex(u, s, e), Some(e)) && StepsTo(u, s, i, Then(t, Lex(u, s, e)), Some(e))
  {
    hide Lex;
  }

  lemma StringStep(u: Library, s: string, i: nat)
    requires i < |s| && IsQuote(s[i])
    ensures StepsTo(u, s, i, LexString(u, s, i), QuotedEnd(s, i + 1, s[i]))
  {
    hide Lex, QuotedEnd;
  }

  lemma ByteStringStep(u: Library, s: string, i: nat)
    requires i + 1 < |s| && s[i] == 'b'
    ensures StepsTo(u, s, i, LexByteString(u, s, i), QuotedEnd(s, i + 2, s[i + 1]))
  {
    hide Lex, QuotedEnd;
  }

  lemma NumberStep(u: Library, s: string, i: nat)
    requires i < |s| && !IsSpace(u, s[i]) && (IsNumeral(u, s[i]) || IsSign(s[i]))
    ensures var e := NumberEnd(s, i);
            StepsTo(u, s, i, LexNumber(u, s, i), ResumesBehind(s, i, e, e > i && !(e < |s| && IsLetter(u, s[e]))))
  {
    hide Lex, NumberEnd;
    NumberMoves(u, s, i);
  }

  lemma TypeStep(u: Library, s: string, i: nat)
    requires i < |s| && !IsSpace(u, s[i]) && !IsNumeral(u, s[i])
    ensures var e := TypeEnd(u, s, i);
            var good := if s[i] == '@' then ValidSignature(s[i + 1..e]) else TypeNamed(s[i..e]).Some?;
            StepsTo(u, s, i, LexType(u, s, i), ResumesBehind(s, i, e, good))
  {
    hide Lex, WordEnd, ScanList, TypeNamed, ByteLength;
  }

  /** The lexer never ends if and only if it comes to a numeral that is no digit. */
  lemma {:induction false} EndlessExactly(u: Library, s: string, i: nat)
    requires i <= |s|
    ensures Lex(u, s, i) == Endless <==> exists j: nat :: TokenStart(u, s, i, j) && Stalls(u, s, j)
    decreases |s| - i
  {
    hide Stalls, Resumes;
    assert TokenStart(u, s, i, i);
    if i == |s| {
      assert !Stalls(u, s, i) by { Past(u, s); }
    } else {
      hide Lex;
      LexStep(u, s, i);
      var r := Resumes(u, s, i);
      assert forall j: nat :: TokenStart(u, s, i, j) <==> i == j || (r.Some? && TokenStart(u, s, r.value, j));
      if r.Some? {
        EndlessExactly(u, s, r.value);
      }
    }
  }

  /** It panics if and only if it comes to a signature with an empty dict body, before anything else ends it. */
  lemma {:induction false} PanicsExactly(u: Library, s: string, i: nat)
    requires i <= |s|
    ensures Lex(u, s, i) == Panics <==> exists j: nat :: TokenStart(u, s, i, j) && Breaks(u, s, j)
    decreases |s| - i
  {
    hide Breaks, Resumes;
    assert TokenStart(u, s, i, i);
    if i == |s| {
      assert !Breaks(u, s, i) by { Past(u, s); }
    } else {
      hide Lex;
      LexStep(u, s, i);
      var r := Resumes(u, s, i);
      assert forall j: nat :: TokenStart(u, s, i, j) <==> i == j || (r.Some? && TokenStart(u, s, r.value, j));
      if r.Some? {
        PanicsExactly(u, s, r.value);
      }
    }
  }

  /** Where there is no such numeral at all, it ends. */
  lemma LexEnds(u: Library, s: string, i: nat)
    requires i <= |s| && forall k :: i <= k < |s| ==> !IsOddNumeral(u, s[k])
    ensures Lex(u, s, i) != Endless
  {
    hide Lex, IsOddNumeral, Resumes;
    EndlessExactly(u, s, i);
    forall j: nat | TokenStart(u, s, i, j)
      ensures i <= j
    {
      StartsLater(u, s, i, j);
    }
  }

  lemma {:induction false} StartsLater(u: Library, s: string, i: nat, j: nat)
    requires i <= |s| && TokenStart(u, s, i, j)
    ensures i <= j
    decreases |s| - i
  {
    hide Resumes;
    if i == j {
    } else {
      StartsLater(u, s, Resumes(u, s, i).value, j);
    }
  }

  /** Standing at one, it never ends. */
  lemma NeverEnds(u: Library, s: string, i: nat)
    requires Stalls(u, s, i)
    ensures Lex(u, s, i) == Endless
  {
    hide Lex, Stalls, Resumes;
    assert i < |s| by { AtCharacter(u, s, i); }
    assert TokenStart(u, s, i, i);
    EndlessExactly(u, s, i);
  }

  lemma AtCharacter(u: Library, s: string, i: nat)
    requires Stalls(u, s, i)
    ensures i < |s|
  {
  }

  /** In quotes such a numeral does no harm. */
  lemma QuotedNumeralEnds(u: Library, c: char)
    requires IsOddNumeral(u, c)
    ensures Lex(u, ['\'', c, '\''], 0) == Tokens([Str(['\'', c, '\'']), EOF])
  {
    var s := ['\'', c, '\''];
    assert QuotedEnd(s, 2, '\'') == Some(3);
    assert QuotedEnd(s, 1, '\'') == Some(3);
    assert s[0..3] == s;
    assert Lex(u, s, 3) == Tokens([EOF]);
  }

  /** The last token is EOF or an error. */
  predicate Closed(ts: seq<Token>)
  {
    ts != [] && (ts[|ts| - 1] == EOF || ts[|ts| - 1] == Error)
  }

  predicate ClosedIfEnding(l: Lexed)
  {
    l.Tokens? ==> Closed(l.ts)
  }

  lemma ThenIsClosed(t: Token, l: Lexed)
    requires ClosedIfEnding(l)
    ensures ClosedIfEnding(Then(t, l))
  {
  }

  lemma {:induction false} LexIsClosed(u: Library, s: string, i: nat)
    requires i <= |s|
    ensures ClosedIfEnding(Lex(u, s, i))
    decreases |s| - i
  {
    hide QuotedEnd, ValidSignature, TypeNamed, NumberEnd, Then, ClosedIfEnding;
    Ends();
    if i == |s| {
    } else {
      forall e, t | i < e <= |s|
        ensures ClosedIfEnding(Lex(u, s, e)) && ClosedIfEnding(Then(t, Lex(u, s, e)))
      {
        LexIsClosed(u, s, e);
        ThenIsClosed(t, Lex(u, s, e));
      }
      var c := s[i];
      assert ClosedIfEnding(LexString(u, s, i)) && ClosedIfEnding(LexNumber(u, s, i));
      assert !IsSpace(u, c) ==> ClosedIfEnding(LexType(u, s, i));
      assert i + 1 < |s| ==> ClosedIfEnding(LexByteString(u, s, i));
      LexIsClosed(u, s, i + 1);
    }
  }

  lemma Ends()
    ensures ClosedIfEnding(Tokens([EOF])) && ClosedIfEnding(FAILED) && ClosedIfEnding(Endless) && ClosedIfEnding(Panics)
  {
  }

  // ---------------------------------------------------------------- the lexer as written

  function Prepend(ts: seq<Token>, l: Lexed): Lexed
  {
    match l
    case Tokens(us) => Tokens(ts + us)
    case _ => l
  }

  lemma PrependThen(ts: seq<Token>, t: Token, l: Lexed)
    ensures Prepend(ts + [t], l) == Prepend(ts, Then(t, l))
  {
    if l.Tokens? {
      assert (ts + [t]) + l.ts == ts + ([t] + l.ts);
    }
  }

  function DigitsOf(k: Digits): string
  {
    match k
    case Oct => "01234567"
    case Dec => "0123456789"
    case Hex => "0123456789abcdefABCDEF"
  }

  lemma DigitsAre(k: Digits, c: char)
    ensures c in DigitsOf(k) <==> IsDigit(k, c)
  {
    var d := DigitsOf(k);
    if IsDigit(k, c) {
      var i := if c <= '9' then c as int - 48 else if c <= 'F' then c as int - 65 + 16 else c as int - 97 + 10;
      assert d[i] == c;
    }
  }

  /** ParseSignature on a text, whose length counts in bytes. */
  method CheckSignature(word: string) returns (r: Scan)
    ensures r.Rem? <==> ValidSignature(word)
    ensures r == Bad(SliceOutOfRange) <==> PanicsOn(word)
  {
    r := ParseSignature(word);
    if r == Bad(SliceOutOfRange) && ByteLength(word) > MAX_SIGNATURE {
      r := Bad(TooLong);
    }
  }

  datatype Fault = NoFault | EmitsForEver | Panicked

  datatype State = Normal | InString | InByteString | InNumber | InType | Stop

  class VarLexer {
    const u: Library
    const input: string
    var start: nat
    var pos: nat
    var width: nat
    var tokens: seq<Token>
    var fault: Fault

    ghost predicate Valid()
      reads this
    {
      start <= pos <= |input| && width <= pos && width <= 1
    }

    constructor (u: Library, input: string)
      ensures Valid() && this.u == u && this.input == input
      ensures start == 0 && pos == 0 && tokens == [] && fault == NoFault
    {
      this.u := u;
      this.input := input;
      start, pos, width, tokens, fault := 0, 0, 0, [], NoFault;
    }

    method Next() returns (r: Option<char>)
      requires Valid()
      modifies this`pos, this`width
      ensures Valid() && width == pos - old(pos)
      ensures if old(pos) == |input| then r == None && pos == old(pos)
              else r == Some(input[old(pos)]) && pos == old(pos) + 1
    {
      if pos >= |input| {
        width := 0;
        return None;
      }
      r := Some(input[pos]);
      width := 1;
      pos := pos + width;
    }

    method Backup()
      requires Valid() && start <= pos - width
      modifies this`pos, this`width
      ensures pos == old(pos) - old(width) && width == 0 && Valid()
    {
      pos := pos - width;
      width := 0;
    }

    method Peek() returns (r: Option<char>)
      requires Valid()
      modifies this`pos, this`width
      ensures Valid() && pos == old(pos) && width == 0
      ensures r == if pos < |input| then Some(input[pos]) else None
    {
      r := Next();
      Backup();
    }

    method Accept(valid: string) returns (ok: bool)
      requires Valid()
      modifies this`pos, this`width
      ensures Valid() && ok == (old(pos) < |input| && input[old(pos)] in valid)
      ensures pos == if ok then old(pos) + 1 else old(pos)
    {
      var r := Next();
      ok := r.Some? && r.value in valid;
      if !ok {
        Backup();
      }
    }

    method AcceptRun(k: Digits)
      requires Valid()
      modifies this`pos, this`width
      ensures Valid() && pos == RunEnd(input, old(pos), k)
    {
      hide DigitsOf;
      var r := Next();
      while r.Some? && r.value in DigitsOf(k)
        invariant Valid() && old(pos) <= pos - width
        invariant width == if r.Some? then 1 else 0
        invariant r == if pos - width < |input| then Some(input[pos - width]) else None
        invariant RunEnd(input, old(pos), k) == RunEnd(input, pos - width, k)
        decreases |input| - pos + width
      {
        DigitsAre(k, r.value);
        r := Next();
      }
      if r.Some? {
        DigitsAre(k, r.value);
      }
      Backup();
    }

    method Emit(t: Token)
      requires Valid()
      modifies this`start, this`tokens
      ensures Valid() && start == pos && tokens == old(tokens) + [t]
    {
      tokens := tokens + [t];
      start := pos;
    }

    method Errorf()
      requires Valid()
      modifies this`tokens
      ensures Valid() && tokens == old(tokens) + [Error]
    {
      tokens := tokens + [Error];
    }

    function Outcome(): Lexed
      reads this
    {
      match fault
      case NoFault => Tokens(tokens)
      case EmitsForEver => Endless
      case Panicked => Panics
    }

    /** What is still to come after the tokens so far. */
    ghost predicate Leads(l: Lexed, s: State)
      reads this
    {
      Valid() &&
      match s
      case Normal => start == pos && fault == NoFault && l == Prepend(tokens, Lex(u, input, pos))
      case InString =>
        start == pos < |input| && fault == NoFault && IsQuote(input[pos]) && l == Prepend(tokens, LexString(u, input, pos))
      case InByteString =>
        && start + 1 == pos < |input| && fault == NoFault && IsQuote(input[pos])
        && l == Prepend(tokens, LexByteString(u, input, start))
      case InNumber => start == pos < |input| && fault == NoFault && l == Prepend(tokens, LexNumber(u, input, pos))
      case InType =>
        && start == pos < |input| && fault == NoFault && !IsSpace(u, input[pos])
        && l == Prepend(tokens, LexType(u, input, pos))
      case Stop => l == Outcome()
    }

    method AcceptWord(w: string) returns (ok: bool)
      requires Valid() && w != []
      modifies this`pos
      ensures Valid() && ok == Starts(input, old(pos), w) && pos == if ok then old(pos) + |w| else old(pos)
    {
      ok := pos + |w| <= |input| && input[pos..pos + |w|] == w;
      if ok {
        pos := pos + |w|;
      }
    }

    /** Any other character starts a byte string, a bool or a type. */
    method LexRest(ghost l: Lexed) returns (state: State)
      requires Valid() && start + 1 == pos && width == 1 && fault == NoFault && l == Prepend(tokens, Lex(u, input, start))
      requires var c := input[start]; !IsPunct(c) && !IsQuote(c) && c != '@' && !IsSpace(u, c) && !IsNumeral(u, c) && !IsSign(c)
      modifies this
      ensures Leads(l, state) && start >= old(start)
      ensures state == InByteString || state == InType || (state == Normal && start > old(start))
    {
      hide LexString, LexNumber, LexByteString, LexType, Starts, IsSpace, IsNumeral, IsPunct;
      if input[start] == 'b' {
        var n := Peek();
        if n.Some? && IsQuote(n.value) {
          return InByteString;
        }
        width := 1;
      }
      Backup();
      var ok := AcceptWord("true");
      if ok {
        PrependThen(tokens, Bool("true"), Lex(u, input, pos));
        Emit(Bool("true"));
        return Normal;
      }
      ok := AcceptWord("false");
      if ok {
        PrependThen(tokens, Bool("false"), Lex(u, input, pos));
        Emit(Bool("false"));
        return Normal;
      }
      return InType;
    }

    /** varLexNormal: up to the next token that needs a state of its own. */
    method LexNormal(ghost l: Lexed) returns (state: State)
      requires Leads(l, Normal)
      modifies this
      ensures Leads(l, state) && state != Normal && start >= old(start)
    {
      hide LexString, LexNumber, LexByteString, LexType, Starts;
      while true
        invariant Leads(l, Normal) && start >= old(start)
        decreases |input| - pos
      {
        var r := Next();
        if r.None? {
          Emit(EOF);
          return Stop;
        }
        var c := r.value;
        if IsPunct(c) {
          PrependThen(tokens, Punct(c), Lex(u, input, pos));
          Emit(Punct(c));
        } else if IsQuote(c) {
          Backup();
          return InString;
        } else if c == '@' {
          Backup();
          return InType;
        } else if IsSpace(u, c) {
          start := pos;
        } else if IsNumeral(u, c) || IsSign(c) {
          Backup();
          return InNumber;
        } else {
          state := LexRest(l);
          if state != Normal {
            return;
          }
        }
      }
    }

    /** The loop that varLexString and varLexByteString share: up to the closing quote, if there is one. */
    method ToQuote() returns (ok: bool)
      requires Valid() && pos < |input|
      modifies this`pos, this`width
      ensures Valid() && pos > old(pos)
      ensures var e := QuotedEnd(input, old(pos) + 1, input[old(pos)]); ok == e.Some? && (ok ==> pos == e.value)
    {
      var q := Next();
      while true
        invariant Valid() && pos > old(pos) && q == Some(input[old(pos)])
        invariant QuotedEnd(input, old(pos) + 1, q.value) == QuotedEnd(input, pos, q.value)
        decreases |input| - pos
      {
        var r := Next();
        if r.None? {
          return false;
        }
        if r.value == '\\' {
          r := Next();
          if r.None? {
            return false;
          }
        } else if r == q {
          return true;
        }
      }
    }

    method LexQuoted(ghost l: Lexed) returns (state: State)
      requires Leads(l, InString)
      modifies this
      ensures Leads(l, state) && if state == Normal then start > old(start) else state == Stop && start == old(start)
    {
      var ok := ToQuote();
      if !ok {
        Errorf();
        return Stop;
      }
      PrependThen(tokens, Str(input[start..pos]), Lex(u, input, pos));
      Emit(Str(input[start..pos]));
      state := Normal;
    }

    method LexQuotedBytes(ghost l: Lexed) returns (state: State)
      requires Leads(l, InByteString)
      modifies this
      ensures Leads(l, state) && if state == Normal then start > old(start) else state == Stop && start == old(start)
    {
      var ok := ToQuote();
      if !ok {
        Errorf();
        return Stop;
      }
      PrependThen(tokens, ByteString(input[start..pos]), Lex(u, input, pos));
      Emit(ByteString(input[start..pos]));
      state := Normal;
    }

    method AcceptSign()
      requires Valid()
      modifies this`pos, this`width
      ensures Valid() && pos == SkipSign(input, old(pos))
    {
      var _ := Accept("+-");
    }

    method AcceptOnly(c: char) returns (ok: bool)
      requires Valid()
      modifies this`pos, this`width
      ensures Valid() && pos == Skip(input, old(pos), c) && ok == (pos > old(pos))
    {
      ok := Accept([c]);
    }

    method AcceptExponent()
      requires Valid()
      modifies this`pos, this`width
      ensures Valid() && pos == ExponentEnd(input, old(pos))
    {
      var exp := Accept("eE");
      if exp {
        AcceptSign();
        AcceptRun(Dec);
      }
    }

    method AcceptFraction(k: Digits)
      requires Valid()
      modifies this`pos, this`width
      ensures Valid() && pos == FractionEnd(input, old(pos), k)
    {
      var dot := AcceptOnly('.');
      if dot {
        AcceptRun(k);
      }
    }

    method AcceptPrefix() returns (digits: Digits)
      requires Valid()
      modifies this`pos, this`width
      ensures Valid() && pos == Prefix(input, old(pos)) && digits == Base(input, old(pos))
    {
      digits := Dec;
      var zero := AcceptOnly('0');
      if zero {
        var x := AcceptOnly('x');
        digits := if x then Hex else Oct;
      }
    }

    method AcceptNumber()
      requires Valid()
      modifies this`pos, this`width
      ensures Valid() && pos == NumberEnd(input, old(pos))
    {
      hide RunEnd, FractionEnd, ExponentEnd, Prefix, Base, SkipSign;
      AcceptSign();
      var digits := AcceptPrefix();
      AcceptRun(digits);
      AcceptFraction(digits);
      AcceptExponent();
    }

    /** EmitsForEver: the token is empty, so that the lexer would come back here for ever. */
    method LexNumeral(ghost l: Lexed) returns (state: State)
      requires Leads(l, InNumber)
      modifies this
      ensures Leads(l, state) && if state == Normal then start > old(start) else state == Stop && start == old(start)
    {
      hide NumberEnd, LexString, LexType, LexByteString, Lex;
      AcceptNumber();
      var r := Peek();
      if r.Some? && IsLetter(u, r.value) {
        Errorf();
        return Stop;
      }
      if pos == start {
        fault := EmitsForEver;
        return Stop;
      }
      PrependThen(tokens, Number(input[start..pos]), Lex(u, input, pos));
      Emit(Number(input[start..pos]));
      state := Normal;
    }

    method LexWord(ghost l: Lexed) returns (state: State)
      requires Leads(l, InType)
      modifies this
      ensures Leads(l, state) && if state == Normal then start > old(start) else state == Stop && start == old(start)
    {
      hide Lex, LexString, LexNumber, LexByteString, ValidSignature, TypeNamed, PanicsOn;
      var at := AcceptOnly('@');
      ghost var from := pos;
      while true
        invariant Valid() && from <= pos && start == old(start) && tokens == old(tokens) && fault == NoFault
        invariant WordEnd(u, input, from) == WordEnd(u, input, pos)
        decreases |input| - pos
      {
        var r := Next();
        if r.None? {
          break;
        }
        if IsSpace(u, r.value) {
          Backup();
          break;
        }
      }
      assert pos == WordEnd(u, input, from);
      var ok: bool;
      if at {
        var scan := CheckSignature(input[start + 1..pos]);
        if scan == Bad(SliceOutOfRange) {
          fault := Panicked;
          return Stop;
        }
        ok := scan.Rem?;
      } else {
        ok := TypeNamed(input[start..pos]).Some?;
      }
      if !ok {
        Errorf();
        return Stop;
      }
      PrependThen(tokens, Type(input[start..pos]), Lex(u, input, pos));
      Emit(Type(input[start..pos]));
      state := Normal;
    }

    /** The lexer does what Lex says: its tokens, or that it goes on for ever, or that it panics. */
    method Run()
      requires Valid() && start == pos == 0 && tokens == [] && fault == NoFault
      modifies this
      ensures Lex(u, input, 0) == Outcome()
    {
      ghost var l := Lex(u, input, 0);
      var state := Normal;
      while state != Stop
        invariant Leads(l, state)
        decreases |input| - start, if state == Normal then 2 else if state != Stop then 1 else 0
      {
        match state {
          case Normal => state := LexNormal(l);
          case InString => state := LexQuoted(l);
          case InByteString => state := LexQuotedBytes(l);
          case InNumber => state := LexNumeral(l);
          case InType => state := LexWord(l);
        }
      }
    }
  }
}
