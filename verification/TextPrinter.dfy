/** The text form of variants (format and String in variant.go). */
module TextPrinter {
  import opened Bytes
  import opened Signature
  import opened Values
  import opened TextLexer
  import opened Options

  // ---------------------------------------------------------------- numbers

  function DigitChar(n: nat): (c: char)
    requires n < 16
  {
    if n < 10 then (48 + n) as char else (87 + n) as char
  }

  function Decimal(n: nat): (s: string)
    ensures s != []
  {
    if n < 10 then [DigitChar(n)] else Decimal(n / 10) + [DigitChar(n % 10)]
  }

  function Signed(n: int): string
  {
    if n < 0 then ['-'] + Decimal(-n) else Decimal(n)
  }

  /** %#x of a byte. */
  function HexByte(n: nat): string
    requires n < 256
  {
    if n < 16 then ['0', 'x', DigitChar(n)] else ['0', 'x', DigitChar(n / 16), DigitChar(n % 16)]
  }

  /** k hexadecimal digits. */
  function Padded(n: nat, k: nat): (s: string)
    ensures |s| == k
    decreases k
  {
    if k == 0 then [] else Padded(n / 16, k - 1) + [DigitChar(n % 16)]
  }

  // ---------------------------------------------------------------- strings (strconv.Quote)

  predicate Printable(u: Library, c: char)
  {
    if c < ASCII then ' ' <= c <= '~' else u.printable(c)
  }

  /** The letter that escapes a control character. */
  function ControlLetter(c: char): Option<char>
  {
    if c as int == 7 then Some('a')
    else if c as int == 8 then Some('b')
    else if c as int == 12 then Some('f')
    else if c as int == 10 then Some('n')
    else if c as int == 13 then Some('r')
    else if c as int == 9 then Some('t')
    else if c as int == 11 then Some('v')
    else None
  }

  function Escape(u: Library, c: char): (e: string)
    ensures e != []
  {
    if c == '"' || c == '\\' then ['\\', c]
    else if Printable(u, c) then [c]
    else if ControlLetter(c).Some? then ['\\', ControlLetter(c).value]
    else if c < ' ' then ['\\', 'x'] + Padded(c as int, 2)
    else if c as int < 0x10000 then ['\\', 'u'] + Padded(c as int, 4)
    else ['\\', 'U'] + Padded(c as int, 8)
  }

  function EscapeAll(u: Library, s: string): string
    decreases |s|
  {
    if s == [] then [] else Escape(u, s[0]) + EscapeAll(u, s[1..])
  }

  function Quote(u: Library, s: string): string
  {
    ['"'] + (EscapeAll(u, s) + ['"'])
  }

  // ---------------------------------------------------------------- values

  /** Letters, but those of floats and file descriptors, and arrays. */
  predicate Plain(t: Ty)
  {
    match t
    case Basic(c) => IsBasic(c) && c != 'd' && c != 'h'
    case Array(e) => Plain(e)
    case Dict(_, _) => false
    case Struct(_) => false
  }

  /** v has the type t, which is plain and no deeper than signatures can be, as are the types of variants in v. */
  predicate Fit(t: Ty, v: Value)
    decreases v, 0
  {
    && Plain(t) && Nest(t) <= MAX_NESTING
    && match t
       case Basic(c) =>
         if c == 'b' then v.Boolean?
         else if c == 's' || c == 'o' then v.Text?
         else if c == 'g' then v.Sig?
         else if c == 'v' then v.Variant? && Fit(v.ty, v.v)
         else v.Num? && InRange(c, v.n)
       case Array(e) => v.List? && FitAll(e, v.vs)
       case Dict(_, _) => false
       case Struct(_) => false
  }

  predicate FitAll(e: Ty, vs: seq<Value>)
    decreases vs, 1
  {
    vs == [] || (Fit(e, vs[0]) && FitAll(e, vs[1..]))
  }

  /** The text alone determines the type: the second result of format. */
  predicate Clear(t: Ty, v: Value)
    requires Fit(t, v)
    decreases v, 0
  {
    if t.Basic? then t.c == 'b' || t.c == 'i' || t.c == 's' || t.c == 'v'
    else v.vs != [] && AllClear(t.elem, v.vs)
  }

  predicate AllClear(e: Ty, vs: seq<Value>)
    requires FitAll(e, vs)
    decreases vs, 1
  {
    vs == [] || (Clear(e, vs[0]) && AllClear(e, vs[1..]))
  }

  lemma ByteRange(n: int)
    requires InRange('y', n)
    ensures 0 <= n < 256
  {
    assert Pow256(1) == 256 * Pow256(0);
  }

  function BasicForm(u: Library, c: byte, v: Value): string
    requires c != 'v' && Fit(Basic(c), v)
  {
    if c == 'b' then if v.b then "true" else "false"
    else if c == 'y' then (ByteRange(v.n); HexByte(v.n))
    else if c == 's' || c == 'o' || c == 'g' then Quote(u, v.s)
    else Signed(v.n)
  }

  /** The first result of format. */
  function Form(u: Library, t: Ty, v: Value): string
    requires Fit(t, v)
    decreases v, 0
  {
    if t.Array? then ['['] + (Elems(u, t.elem, v.vs) + [']'])
    else if t.c == 'v' then ['<'] + (Written(u, v.ty, v.v) + ['>'])
    else BasicForm(u, t.c, v)
  }

  function Elems(u: Library, e: Ty, vs: seq<Value>): string
    requires FitAll(e, vs)
    decreases vs, 1
  {
    if vs == [] then []
    else Form(u, e, vs[0]) + if |vs| == 1 then [] else [',', ' '] + Elems(u, e, vs[1..])
  }

  function Mark(t: Ty): string
  {
    ['@'] + Print(t)
  }

  /** String: with the type in front if the text does not determine it. */
  function Written(u: Library, t: Ty, v: Value): string
    requires Fit(t, v)
    decreases v, 1
  {
    if Clear(t, v) then Form(u, t, v) else Mark(t) + ([' '] + Form(u, t, v))
  }

  // ---------------------------------------------------------------- as written

  method Format(u: Library, t: Ty, v: Value) returns (s: string, unamb: bool)
    requires Fit(t, v)
    ensures s == Form(u, t, v) && unamb == Clear(t, v)
    decreases v
  {
    if t.Basic? {
      match t.c
      case 'b' => s, unamb := if v.b then "true" else "false", true;
      case 'i' => s, unamb := Signed(v.n), true;
      case 'y' =>
        ByteRange(v.n);
        s, unamb := HexByte(v.n), false;
      case 's' => s, unamb := Quote(u, v.s), true;
      case 'o' => s, unamb := Quote(u, v.s), false;
      case 'g' => s, unamb := Quote(u, v.s), false;
      case 'v' =>
        s, unamb := Format(u, v.ty, v.v);
        if !unamb {
          assert ['<'] + ((Mark(v.ty) + ([' '] + s)) + ['>']) == ['<', '@'] + Print(v.ty) + [' '] + s + ['>'];
          return ['<', '@'] + Print(v.ty) + [' '] + s + ['>'], true;
        }
        s, unamb := ['<'] + (s + ['>']), true;
      case _ => s, unamb := Signed(v.n), false;
    } else {
      s, unamb := FormatArray(u, t.elem, v.vs);
    }
  }

  method FormatArray(u: Library, e: Ty, vs: seq<Value>) returns (s: string, unamb: bool)
    requires FitAll(e, vs)
    ensures s == ['['] + (Elems(u, e, vs) + [']']) && unamb == (vs != [] && AllClear(e, vs))
    decreases vs
  {
    if |vs| == 0 {
      return "[]", false;
    }
    unamb := true;
    var buf := ['['];
    var i := 0;
    while i < |vs|
      invariant 0 <= i <= |vs| && FitAll(e, vs[i..])
      invariant ['['] + Elems(u, e, vs) == buf + Elems(u, e, vs[i..])
      invariant AllClear(e, vs) == (unamb && AllClear(e, vs[i..]))
    {
      assert vs[i..][1..] == vs[i + 1..] && vs[i..][0] == vs[i];
      var f, b := Format(u, e, vs[i]);
      unamb := unamb && b;
      ghost var rest := Elems(u, e, vs[i + 1..]);
      if i != |vs| - 1 {
        assert buf + (f + ([',', ' '] + rest)) == (buf + f + [',', ' ']) + rest;
        buf := buf + f + [',', ' '];
      } else {
        assert buf + (f + []) == (buf + f) + [];
        buf := buf + f;
      }
      i := i + 1;
    }
    assert buf + [] == buf;
    s := buf + [']'];
    assert ['['] + (Elems(u, e, vs) + [']']) == (['['] + Elems(u, e, vs)) + [']'];
  }

  method String(u: Library, t: Ty, v: Value) returns (s: string)
    requires Fit(t, v)
    ensures s == Written(u, t, v)
  {
    var unamb: bool;
    s, unamb := Format(u, t, v);
    if !unamb {
      assert Mark(t) + ([' '] + s) == ['@'] + Print(t) + [' '] + s;
      return ['@'] + Print(t) + [' '] + s;
    }
  }
}
