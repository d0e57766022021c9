/** From tokens to nodes to values (variant_parser.go, ParseVariant in variant.go). */
module TextParser {
  import opened Bytes
  import opened Signature
  import opened Values
  import opened TextLexer
  import opened Options

  /** Unmodelled: a dict or a byte string. */
  datatype Res<+T> = Ok(value: T) | Fail | Panic | Unmodelled

  function Failed<S, T>(r: Res<S>): Res<T>
    requires !r.Ok?
  {
    match r
    case Fail => Fail
    case Panic => Panic
    case Unmodelled => Unmodelled
  }

  // ---------------------------------------------------------------- numbers (package strconv)

  function DigitValue(c: char): nat
    requires IsDigit(Hex, c)
  {
    if c <= '9' then c as int - 48 else if c <= 'F' then c as int - 55 else c as int - 87
  }

  function DigitsValue(s: string, base: nat): Option<nat>
    decreases |s|
  {
    if s == [] then Some(0)
    else
      var c := s[|s| - 1];
      match DigitsValue(s[..|s| - 1], base)
      case None => None
      case Some(m) => if IsDigit(Hex, c) && DigitValue(c) < base then Some(m * base + DigitValue(c)) else None
  }

  /** ParseInt or ParseUint with the size of the type c. */
  function ParseNumber(c: byte, s: string, base: nat): Option<int>
  {
    var t := if IsSigned(c) && s != [] && IsSign(s[0]) then s[1..] else s;
    match if t == [] then None else DigitsValue(t, base)
    case None => None
    case Some(m) =>
      var n: int := if IsSigned(c) && s[0] == '-' then -(m as int) else m;
      if InRange(c, n) then Some(n) else None
  }

  predicate IsInteger(sig: string)
  {
    |sig| == 1 && IsNumber(sig[0]) && sig[0] != 'd' && sig[0] != 'h'
  }

  /** varNumAs. A leading 0 means octal, also behind 0x. */
  function NumAs(u: Library, s: string, sig: string): Option<Value>
  {
    if sig == "d" then
      var d := u.parseFloat(s);
      if d.Some? then Some(Num(d.value)) else None
    else if !IsInteger(sig) then None
    else
      var hex := Starts(s, 0, "0x");
      var t := if hex then s[2..] else s;
      var octal := Starts(t, 0, "0") && |t| != 1;
      var n := ParseNumber(sig[0], if octal then t[1..] else t, if octal then 8 else if hex then 16 else 10);
      if n.Some? then Some(Num(n.value)) else None
  }

  // ---------------------------------------------------------------- strings

  const REPLACEMENT := 0xFFFD as char

  function ToRune(n: nat): char
  {
    if n < 0xD800 || 0xE000 <= n < 0x110000 then n as char else REPLACEMENT
  }

  function Cons(c: char, r: Option<string>): Option<string>
  {
    if r.Some? then Some([c] + r.value) else None
  }

  /** The control character that an escape letter stands for. */
  function Control(c: char): Option<char>
  {
    if c == 'a' then Some(7 as char)
    else if c == 'b' then Some(8 as char)
    else if c == 'f' then Some(12 as char)
    else if c == 'n' then Some(10 as char)
    else if c == 'r' then Some(13 as char)
    else if c == 't' then Some(9 as char)
    else None
  }

  /** varParseString, without the quotes. */
  function Unquote(s: string): Option<string>
    decreases |s|
  {
    if s == [] then Some([])
    else if s[0] != '\\' then Cons(s[0], Unquote(s[1..]))
    else if |s| == 1 then Some([REPLACEMENT])
    else if Control(s[1]).Some? then Cons(Control(s[1]).value, Unquote(s[2..]))
    else if s[1] == '\n' then Unquote(s[2..])
    else if s[1] == 'u' then UnquoteHex(s[2..], 4)
    else if s[1] == 'U' then UnquoteHex(s[2..], 8)
    else Cons(s[1], Unquote(s[2..]))
  }

  function UnquoteHex(s: string, n: nat): Option<string>
    decreases |s|
  {
    if |s| < n || n == 0 then None
    else
      match DigitsValue(s[..n], 16)
      case None => None
      case Some(r) => Cons(ToRune(r), Unquote(s[n..]))
  }

  // ---------------------------------------------------------------- nodes

  datatype Node = NumText(s: string) | NumTyped(sig: string, v: Value)
                | StrText(s: string) | StrTyped(sig: string, s: string)
                | BoolNode(b: bool) | ArrayNode(sigs: set<string>, children: seq<Node>) | VariantNode(n: Node)

  const NUMBERS := {"y", "n", "q", "i", "u", "x", "t", "d"}

  const STRINGS := {"s", "g", "o"}

  /** strings.ContainsAny(s, ".e"): also true of hexadecimal digits. */
  predicate LooksFloat(s: string)
  {
    '.' in s || 'e' in s
  }

  function Sigs(n: Node): set<string>
  {
    match n
    case NumText(s) => if LooksFloat(s) then {"d"} else NUMBERS
    case NumTyped(sig, _) => {sig}
    case StrText(_) => STRINGS
    case StrTyped(sig, _) => {sig}
    case BoolNode(_) => {"b"}
    case ArrayNode(sigs, _) => sigs
    case VariantNode(_) => {"v"}
  }

  function ToArray(sigs: set<string>): set<string>
  {
    set s | s in sigs :: ['a'] + s
  }

  lemma AllTheSame(sigs: set<string>)
    requires |sigs| == 1
    ensures sigs != {} && forall a, b :: a in sigs && b in sigs ==> a == b
  {
    forall a, b | a in sigs && b in sigs
      ensures a == b
    {
      assert |sigs - {a}| == 0;
      assert b !in sigs - {a};
    }
  }

  /** sigSet.Single. */
  function Single(sigs: set<string>): Option<string>
  {
    if |sigs| == 1 then
      AllTheSame(sigs);
      var sig :| sig in sigs;
      Some(sig)
    else None
  }

  lemma SingleIs(sigs: set<string>, sig: string)
    ensures Single(sigs) == Some(sig) <==> sigs == {sig}
  {
    if |sigs| == 1 {
      AllTheSame(sigs);
    }
  }

  /** varInfer. */
  function Infer(n: Node): Option<string>
    decreases n, 1
  {
    if Single(Sigs(n)).Some? then Single(Sigs(n)) else InferHere(n)
  }

  function InferHere(n: Node): Option<string>
    decreases n, 0
  {
    match n
    case NumText(s) => Some(if LooksFloat(s) then "d" else "i")
    case NumTyped(_, _) => Some("i")
    case StrText(_) => Some("s")
    case StrTyped(_, _) => Some("s")
    case BoolNode(_) => Some("b")
    case ArrayNode(_, children) => InferFirst(children)
    case VariantNode(_) => Some("v")
  }

  function InferFirst(ns: seq<Node>): Option<string>
    decreases ns
  {
    if ns == [] then None
    else
      match Infer(ns[0])
      case Some(sig) => Some(['a'] + sig)
      case None => InferFirst(ns[1..])
  }

  // ---------------------------------------------------------------- values of nodes

  /** typeFor gives a slice type. */
  predicate SliceSig(sig: string)
  {
    ScanOne(sig, 0).Rem? && sig[0] == 'a' && sig[1] != '{'
  }

  function ValueOf(u: Library, n: Node, sig: string): Res<Value>
    decreases n, 0
  {
    match n
    case NumText(s) => (var r := NumAs(u, s, sig); if r.Some? then Ok(r.value) else Fail)
    case NumTyped(g, v) => if g == sig then Ok(v) else Fail
    case StrText(s) => StringAs(s, sig)
    case StrTyped(g, s) => if g == sig then StringAs(s, g) else Fail
    case BoolNode(b) => if sig == "b" then Ok(Boolean(b)) else Fail
    case ArrayNode(sigs, children) =>
      if sigs == {} then if SliceSig(sig) then Ok(List([])) else Panic
      else if sig !in sigs then Fail
      else if !SliceSig(sig) then Panic
      else
        var vs := ValuesOf(u, children, sig[1..]);
        if vs.Ok? then Ok(List(vs.value)) else Failed(vs)
    case VariantNode(m) =>
      var g := Infer(m);
      if sig != "v" || g.None? then Fail
      else
        var v := ValueOf(u, m, g.value);
        if v.Ok? then MakeVariant(g.value, v.value) else v
  }

  function StringAs(s: string, sig: string): Res<Value>
  {
    if sig == "g" then Ok(Sig(s)) else if sig == "o" || sig == "s" then Ok(Text(s)) else Fail
  }

  /** The variant has the type of the Go value, which is that of the signature it was made for. */
  function MakeVariant(sig: string, v: Value): Res<Value>
  {
    if ScanOne(sig, 0).Rem? then Ok(Variant(TypeFor(sig, 0), v)) else Panic
  }

  function ValuesOf(u: Library, ns: seq<Node>, sig: string): Res<seq<Value>>
    decreases ns, 1
  {
    if ns == [] then Ok([])
    else
      var v := ValueOf(u, ns[0], sig);
      if !v.Ok? then Failed(v)
      else
        var vs := ValuesOf(u, ns[1..], sig);
        if vs.Ok? then Ok([v.value] + vs.value) else vs
  }

  // ---------------------------------------------------------------- parsing

  datatype Parsed = Parsed(n: Node, rest: seq<Token>)

  /** varMakeNode: one node off the front of the tokens. */
  function MakeNode(u: Library, ts: seq<Token>, sig: string): (r: Res<Parsed>)
    ensures r.Ok? ==> |r.value.rest| < |ts|
    decreases |ts|, 0
  {
    if ts == [] then Fail
    else
      var rest := ts[1..];
      match ts[0]
      case EOF => Fail
      case Error => Fail
      case Number(s) =>
        if sig == "" then Ok(Parsed(NumText(s), rest))
        else
          var v := NumAs(u, s, sig);
          if v.Some? then Ok(Parsed(NumTyped(sig, v.value), rest)) else Fail
      case Str(s) =>
        if sig != "" && sig != "s" && sig != "g" && sig != "o" then Fail
        else
          var t := Unquote(if |s| >= 2 then s[1..|s| - 1] else []);
          if t.None? then Fail
          else Ok(Parsed(if sig == "" then StrText(t.value) else StrTyped(sig, t.value), rest))
      case Bool(s) => if sig != "" && sig != "b" then Fail else Ok(Parsed(BoolNode(s == "true"), rest))
      case ByteString(_) => Unmodelled
      case Type(s) =>
        if sig != "" then Fail
        else MakeNode(u, rest, Annotation(s))
      case Punct(c) =>
        if c == '[' then MakeArray(u, rest, if sig == "" then {} else {sig})
        else if c == '<' then MakeVariantNode(u, rest, sig)
        else if c == '{' then Unmodelled
        else Fail
  }

  /** The signature that a type token stands for. */
  function Annotation(s: string): string
  {
    if s != [] && s[0] == '@' then s[1..] else if TypeNamed(s).Some? then TypeNamed(s).value else ""
  }

  function MakeVariantNode(u: Library, ts: seq<Token>, sig: string): (r: Res<Parsed>)
    ensures r.Ok? ==> |r.value.rest| < |ts|
    decreases |ts|, 1
  {
    var r := MakeNode(u, ts, "");
    if !r.Ok? then r
    else
      var p := r.value;
      if p.rest == [] || p.rest[0] != Punct('>') then Fail
      else if sig != "" && sig != "v" then Fail
      else Ok(Parsed(VariantNode(p.n), p.rest[1..]))
  }

  function MakeArray(u: Library, ts: seq<Token>, sigs: set<string>): (r: Res<Parsed>)
    ensures r.Ok? ==> |r.value.rest| < |ts|
    decreases |ts|, 2
  {
    if ts != [] && ts[0] == Punct(']') then Ok(Parsed(ArrayNode(sigs, []), ts[1..]))
    else MakeElems(u, ts, sigs, [])
  }

  /** The type information of an array after another child; None if it contradicts what was known. */
  function Narrowed(sigs: set<string>, child: Node): Option<set<string>>
  {
    if Sigs(child) == {} then Some(sigs)
    else if sigs == {} then Some(ToArray(Sigs(child)))
    else if ToArray(Sigs(child)) * sigs == {} then None
    else Some(ToArray(Sigs(child)) * sigs)
  }

  function MakeElems(u: Library, ts: seq<Token>, sigs: set<string>, children: seq<Node>): (r: Res<Parsed>)
    ensures r.Ok? ==> |r.value.rest| < |ts|
    decreases |ts|, 1
  {
    var r := MakeNode(u, ts, "");
    if !r.Ok? then r
    else
      var p := r.value;
      var narrowed := Narrowed(sigs, p.n);
      if narrowed.None? || p.rest == [] then Fail
      else if p.rest[0] == Punct(']') then Ok(Parsed(ArrayNode(narrowed.value, children + [p.n]), p.rest[1..]))
      else if p.rest[0] == Punct(',') then MakeElems(u, p.rest[1..], narrowed.value, children + [p.n])
      else Fail
  }

  /** ParseVariant. None: the lexer does not end. sig may be empty. */
  function ParseVariant(u: Library, s: string, sig: string): Option<Res<Value>>
  {
    match Lex(u, s, 0)
    case Endless => None
    case Panics => Some(Panic)
    case Tokens(ts) =>
      var r := MakeNode(u, ts, "");
      if !r.Ok? then Some(Failed(r))
      else
        var g := if sig != "" then Some(sig) else Infer(r.value.n);
        if g.None? then Some(Fail)
        else
          var v := ValueOf(u, r.value.n, g.value);
          Some(if v.Ok? then MakeVariant(g.value, v.value) else v)
  }

  /** ParseVariant does not return if and only if its lexer comes to a numeral that is no digit, outside the tokens
      before it. */
  lemma ParseNeverEndsExactly(u: Library, s: string, sig: string)
    ensures ParseVariant(u, s, sig) == None <==> exists j: nat :: TokenStart(u, s, 0, j) && Stalls(u, s, j)
  {
    hide Lex, TokenStart, Stalls, MakeNode, ValueOf, Infer, MakeVariant;
    EndlessExactly(u, s, 0);
  }

  /** It panics if the lexer comes to an @ with a signature that has an empty dict body. */
  lemma ParsePanicsOnEmptyDict(u: Library, s: string, sig: string, j: nat)
    requires TokenStart(u, s, 0, j) && Breaks(u, s, j)
    ensures ParseVariant(u, s, sig) == Some(Panic)
  {
    hide Lex, TokenStart, Breaks, MakeNode, ValueOf, Infer, MakeVariant;
    PanicsExactly(u, s, 0);
  }

  lemma AnnotatedEmptyDictPanics(u: Library, sig: string)
    ensures ParseVariant(u, "@a{} {}", sig) == Some(Panic)
  {
    var s := "@a{} {}";
    assert TypeEnd(u, s, 0) == 4 by {
      assert WordEnd(u, s, 4) == 4;
      assert WordEnd(u, s, 3) == 4;
      assert WordEnd(u, s, 2) == 4;
    }
    assert PanicsOn("a{}") by {
      EmptyDictPanics([], "", 0);
      assert PrintAll([]) + ("a{}" + "") == "a{}";
      assert "a{}"[1..] == "{}" && "{}"[1..] == "}" && "}"[1..] == "";
      assert ByteLength("}") == 1;
      assert ByteLength("{}") == 2;
    }
    assert s[1..4] == "a{}";
    assert TokenStart(u, s, 0, 0);
    ParsePanicsOnEmptyDict(u, s, sig, 0);
  }

  // ---------------------------------------------------------------- the parser as written

  class VarParser {
    const u: Library
    const tokens: seq<Token>
    var i: nat

    ghost predicate Valid()
      reads this
    {
      Closed(tokens) && i <= |tokens|
    }

    constructor (u: Library, tokens: seq<Token>)
      requires Closed(tokens)
      ensures this.u == u && this.tokens == tokens && i == 0 && Valid()
    {
      this.u := u;
      this.tokens := tokens;
      i := 0;
    }

    method Backup()
      requires Valid() && i > 0
      modifies this
      ensures i == old(i) - 1 && Valid()
    {
      i := i - 1;
    }

    method Next() returns (t: Token)
      requires Valid()
      modifies this
      ensures Valid()
      ensures if old(i) < |tokens| then t == tokens[old(i)] && i == old(i) + 1 else t == EOF && i == old(i)
    {
      if i < |tokens| {
        t := tokens[i];
        i := i + 1;
        return;
      }
      t := EOF;
    }

    /** r and the tokens that are left are those of p. */
    ghost predicate Agrees(r: Res<Node>, p: Res<Parsed>)
      reads this
    {
      Valid() &&
      if p.Ok? then r == Ok(p.value.n) && tokens[i..] == p.value.rest else r == Failed(p)
    }

    method VarMakeNode(sig0: string) returns (r: Res<Node>)
      requires Valid()
      modifies this
      ensures Agrees(r, MakeNode(u, old(tokens[i..]), sig0))
      ensures r.Ok? ==> i > old(i)
      decreases |tokens| - i, 0
    {
      hide NumAs, Unquote;
      var sig := sig0;
      while true
        invariant Valid() && i >= old(i)
        invariant MakeNode(u, old(tokens[i..]), sig0) == MakeNode(u, tokens[i..], sig)
        decreases |tokens| - i
      {
        ghost var ts := tokens[i..];
        ghost var here := i;
        var t := Next();
        assert ts != [] ==> tokens[i..] == ts[1..] && t == ts[0];
        match t {
          case EOF => return Fail;
          case Error => return Fail;
          case Number(s) =>
            if sig == "" {
              return Ok(NumText(s));
            }
            var v := NumAs(u, s, sig);
            if v.None? {
              return Fail;
            }
            return Ok(NumTyped(sig, v.value));
          case Str(s) =>
            if sig != "" && sig != "s" && sig != "g" && sig != "o" {
              return Fail;
            }
            var v := Unquote(if |s| >= 2 then s[1..|s| - 1] else []);
            if v.None? {
              return Fail;
            }
            return Ok(if sig == "" then StrText(v.value) else StrTyped(sig, v.value));
          case Bool(s) =>
            if sig != "" && sig != "b" {
              return Fail;
            }
            return Ok(BoolNode(s == "true"));
          case ByteString(_) => return Unmodelled;
          case Type(s) =>
            if sig != "" {
              return Fail;
            }
            sig := Annotation(s);
          case Punct(c) =>
            if c == '[' {
              r := VarMakeArrayNode(sig);
            } else if c == '<' {
              r := VarMakeVariantNode(sig);
            } else if c == '{' {
              r := Unmodelled;
            } else {
              r := Fail;
            }
            return;
        }
      }
    }

    method VarMakeVariantNode(sig: string) returns (r: Res<Node>)
      requires Valid()
      modifies this
      ensures Agrees(r, MakeVariantNode(u, old(tokens[i..]), sig))
      ensures r.Ok? ==> i > old(i)
      decreases |tokens| - i, 1
    {
      hide MakeNode;
      r := VarMakeNode("");
      if !r.Ok? {
        return;
      }
      ghost var ts := tokens[i..];
      var t := Next();
      assert ts != [] ==> tokens[i..] == ts[1..] && t == ts[0];
      if t != Punct('>') {
        return Fail;
      }
      if sig != "" && sig != "v" {
        return Fail;
      }
      r := Ok(VariantNode(r.value));
    }

    method VarMakeArrayNode(sig: string) returns (r: Res<Node>)
      requires Valid() && i < |tokens|
      modifies this
      ensures Agrees(r, MakeArray(u, old(tokens[i..]), if sig == "" then {} else {sig}))
      ensures r.Ok? ==> i > old(i)
      decreases |tokens| - i, 2
    {
      hide MakeNode, Narrowed;
      var sigs: set<string> := if sig == "" then {} else {sig};
      var children: seq<Node> := [];
      ghost var ts0 := tokens[i..];
      var t := Next();
      assert tokens[i..] == ts0[1..] && t == ts0[0];
      if t == Punct(']') {
        return Ok(ArrayNode(sigs, children));
      }
      Backup();
      while true
        invariant Valid() && i >= old(i) && i < |tokens|
        invariant MakeArray(u, ts0, if sig == "" then {} else {sig}) == MakeElems(u, tokens[i..], sigs, children)
        decreases |tokens| - i
      {
        ghost var ts := tokens[i..];
        r := VarMakeNode("");
        if !r.Ok? {
          return;
        }
        var narrowed := Narrowed(sigs, r.value);
        if narrowed.None? {
          return Fail;
        }
        sigs := narrowed.value;
        children := children + [r.value];
        ghost var rest := tokens[i..];
        t := Next();
        assert rest != [] ==> tokens[i..] == rest[1..] && t == rest[0];
        if t == Punct(']') {
          return Ok(ArrayNode(sigs, children));
        }
        if t != Punct(',') {
          return Fail;
        }
      }
    }
  }

  // ---------------------------------------------------------------- from text to value, as written

  /** None: the lexer does not end. */
  method ReadVariant(u: Library, s: string, sig: string) returns (r: Option<Res<Value>>)
    ensures r == ParseVariant(u, s, sig)
  {
    hide Lex, MakeNode, ValueOf, Infer, MakeVariant;
    var lexer := new VarLexer(u, s);
    lexer.Run();
    match lexer.fault {
      case EmitsForEver => return None;
      case Panicked => return Some(Panic);
      case NoFault =>
    }
    LexIsClosed(u, s, 0);
    var p := new VarParser(u, lexer.tokens);
    assert lexer.tokens[0..] == lexer.tokens;
    var n := p.VarMakeNode("");
    if !n.Ok? {
      return Some(Failed(n));
    }
    var g := if sig != "" then Some(sig) else Infer(n.value);
    if g.None? {
      return Some(Fail);
    }
    var v := ValueOf(u, n.value, g.value);
    r := Some(if v.Ok? then MakeVariant(g.value, v.value) else v);
  }
}
