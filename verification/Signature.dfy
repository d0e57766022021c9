/** Type signatures: printing, scanning and reconstruction of types (sig.go, dbus.go). */
module Signature {
  import opened Bytes
  import opened Options

  const MAX_SIGNATURE := 255
  const MAX_NESTING := 64

  predicate IsBasic(c: byte)
  {
    c == 'y' || c == 'b' || c == 'n' || c == 'q' || c == 'i' || c == 'u' || c == 'x' || c == 't'
    || c == 'd' || c == 's' || c == 'g' || c == 'o' || c == 'v' || c == 'h'
  }

  /** A D-Bus type. A basic type is named by its signature letter. */
  datatype Ty =
    | Basic(c: byte)
    | Array(elem: Ty)
    | Dict(key: byte, val: Ty)
    | Struct(fields: seq<Ty>)

  /** getSignature: the printed form of a type. */
  function Print(t: Ty): (s: bytes)
    ensures s != []
    decreases t, 0
  {
    match t
    case Basic(c) => [c]
    case Array(e) => ['a'] + Print(e)
    case Dict(k, v) => ['a', '{', k] + Print(v) + ['}']
    case Struct(fs) => ['('] + PrintAll(fs) + [')']
  }

  function PrintAll(ts: seq<Ty>): bytes
    decreases ts, 1
  {
    if ts == [] then [] else Print(ts[0]) + PrintAll(ts[1..])
  }

  /** Every letter is a basic type. Dict keys may be any letter here: only values decide about keys. */
  predicate Lettered(t: Ty)
    decreases t, 0
  {
    match t
    case Basic(c) => IsBasic(c)
    case Array(e) => Lettered(e)
    case Dict(k, v) => IsBasic(k) && Lettered(v)
    case Struct(fs) => LetteredAll(fs)
  }

  predicate LetteredAll(ts: seq<Ty>)
    decreases ts, 1
  {
    ts == [] || (Lettered(ts[0]) && LetteredAll(ts[1..]))
  }

  /** How many container levels a scan of the printed type goes down. */
  function Nest(t: Ty): nat
    decreases t, 0
  {
    match t
    case Basic(_) => 0
    case Array(e) => 1 + Nest(e)
    case Dict(_, v) => 1 + Nest(v)
    case Struct(fs) => if fs == [] then 0 else 1 + NestAll(fs)
  }

  function NestAll(ts: seq<Ty>): nat
    decreases ts, 1
  {
    if ts == [] then 0 else
    var n, m := Nest(ts[0]), NestAll(ts[1..]);
    if n < m then m else n
  }

  datatype SigError = EmptySignature | TooDeep | UnmatchedBrace | UnmatchedParen
                    | TooManyInDict | BadLetter | TooLong | SliceOutOfRange

  datatype Scan = Rem(rem: bytes) | Bad(error: SigError)

  // ---------------------------------------------------------------- specification of the scanner

  /** Where the bracket count, starting at n, first drops to 0 after a byte of s; -1 if never. */
  function Closing(s: bytes, left: byte, right: byte, n: int): (i: int)
    ensures -1 <= i < |s|
  {
    if s == [] then -1 else
    var m := if s[0] == left then n + 1 else if s[0] == right then n - 1 else n;
    if m == 0 then 0 else
    var i := Closing(s[1..], left, right, m);
    if i == -1 then -1 else i + 1
  }

  predicate Brackets(left: byte, right: byte)
  {
    (left == '{' && right == '}') || (left == '(' && right == ')')
  }

  lemma {:induction false} ClosingByte(s: bytes, left: byte, right: byte, n: nat)
    requires Brackets(left, right) && Closing(s, left, right, n) >= 0 && (n == 0 ==> s[0] == left)
    ensures s[Closing(s, left, right, n)] == right
    decreases |s|
  {
    var m := if s[0] == left then n + 1 else if s[0] == right then n - 1 else n;
    if m == 0 {
    } else {
      ClosingByte(s[1..], left, right, m);
    }
  }

  datatype Split = Unmatched | Parts(body: bytes, rem: bytes)

  /** A string that starts with the left bracket, cut at the bracket that closes it. */
  function Bracketed(s: bytes, left: byte, right: byte): (r: Split)
    requires s != [] && s[0] == left && Brackets(left, right)
    ensures r.Parts? ==> s == [left] + r.body + [right] + r.rem
    ensures r.Parts? <==> Closing(s, left, right, 0) != -1
    ensures r.Parts? ==> |r.body| + 1 == Closing(s, left, right, 0)
  {
    var i := Closing(s, left, right, 0);
    if i == -1 then Unmatched else
    ClosingByte(s, left, right, 0);
    Parts(s[1..i], s[i + 1..])
  }

  /** What one complete type at the front of s leaves over. */
  function ScanOne(s: bytes, depth: nat): (r: Scan)
    ensures r.Rem? ==> |r.rem| < |s| && r.rem == s[|s| - |r.rem|..]
    decreases |s|, 0
  {
    if s == [] then Bad(EmptySignature)
    else if depth > MAX_NESTING then Bad(TooDeep)
    else if IsBasic(s[0]) then Rem(s[1..])
    else if s[0] == 'a' && |s| > 1 && s[1] == '{' then ScanEntry(s[1..], depth + 1)
    else if s[0] == 'a' then ScanOne(s[1..], depth + 1)
    else if s[0] == '(' then
      match Bracketed(s, '(', ')')
      case Unmatched => Bad(UnmatchedParen)
      case Parts(body, rem) =>
        var fs := ScanList(body, depth + 1);
        if fs.Bad? then fs else Rem(rem)
    else Bad(BadLetter)
  }

  /** The rest of a dict signature, from its opening brace on. */
  function ScanEntry(s: bytes, depth: nat): (r: Scan)
    requires s != [] && s[0] == '{'
    ensures r.Rem? ==> |r.rem| < |s| && r.rem == s[|s| - |r.rem|..]
    decreases |s|, 2
  {
    match Bracketed(s, '{', '}')
    case Unmatched => Bad(UnmatchedBrace)
    case Parts(body, rem) =>
      if body == [] then Bad(SliceOutOfRange) else
      var k := ScanOne(body[..1], depth);
      if k.Bad? then k else
      var v := ScanOne(body[1..], depth);
      if v.Bad? then v
      else if v.rem != [] then Bad(TooManyInDict)
      else Rem(rem)
  }

  /** A whole string of complete types. */
  function ScanList(s: bytes, depth: nat): (r: Scan)
    ensures r.Rem? ==> r.rem == []
    decreases |s|, 1
  {
    if s == [] then Rem([]) else
    var r := ScanOne(s, depth);
    if r.Bad? then r else ScanList(r.rem, depth)
  }

  predicate ValidSignature(s: bytes)
  {
    |s| <= MAX_SIGNATURE && ScanList(s, 0).Rem?
  }

  // ---------------------------------------------------------------- the scanner as written

  method FindMatching(s: bytes, left: byte, right: byte) returns (i: int)
    ensures i == Closing(s, left, right, 0)
  {
    var n := 0;
    for k := 0 to |s|
      invariant var rest := Closing(s[k..], left, right, n);
                Closing(s, left, right, 0) == if rest == -1 then -1 else k + rest
    {
      if s[k] == left {
        n := n + 1;
      } else if s[k] == right {
        n := n - 1;
      }
      assert s[k..][1..] == s[k + 1..];
      if n == 0 {
        return k;
      }
    }
    return -1;
  }

  method ValidSingle(s: bytes, depth: nat) returns (r: Scan)
    ensures r == ScanOne(s, depth)
    decreases |s|
  {
    hide Closing, IsBasic;
    if s == [] {
      return Bad(EmptySignature);
    }
    if depth > MAX_NESTING {
      return Bad(TooDeep);
    }
    if IsBasic(s[0]) {
      return Rem(s[1..]);
    }
    if s[0] == 'a' {
      if |s| > 1 && s[1] == '{' {
        var tail := s[1..];
        var i := FindMatching(tail, '{', '}');
        if i == -1 {
          return Bad(UnmatchedBrace);
        }
        ghost var cut := Bracketed(tail, '{', '}');
        var rem, body := tail[i + 1..], tail[1..i];
        if body == [] {
          return Bad(SliceOutOfRange);
        }
        r := ValidSingle(body[..1], depth + 1);
        if r.Bad? {
          return;
        }
        r := ValidSingle(body[1..], depth + 1);
        if r.Bad? {
          return;
        }
        return if r.rem != [] then Bad(TooManyInDict) else Rem(rem);
      }
      r := ValidSingle(s[1..], depth + 1);
      return;
    }
    if s[0] == '(' {
      var i := FindMatching(s, '(', ')');
      if i == -1 {
        return Bad(UnmatchedParen);
      }
      ghost var cut := Bracketed(s, '(', ')');
      var rem, fs := s[i + 1..], s[1..i];
      ghost var all := fs;
      while fs != []
        invariant |fs| < |s| && ScanList(all, depth + 1) == ScanList(fs, depth + 1)
        decreases |fs|
      {
        r := ValidSingle(fs, depth + 1);
        if r.Bad? {
          return;
        }
        fs := r.rem;
      }
      return Rem(rem);
    }
    return Bad(BadLetter);
  }

  /** The error SliceOutOfRange stands for the panic of s[:1] on an empty dict body. */
  method ParseSignature(s: bytes) returns (r: Scan)
    ensures r.Rem? <==> ValidSignature(s)
    ensures r.Rem? ==> r.rem == s
    ensures r.Bad? ==> r == if |s| > MAX_SIGNATURE then Bad(TooLong) else ScanList(s, 0)
  {
    if |s| == 0 {
      return Rem([]);
    }
    if |s| > MAX_SIGNATURE {
      return Bad(TooLong);
    }
    var rest := s;
    while rest != []
      invariant ScanList(s, 0) == ScanList(rest, 0)
      decreases |rest|
    {
      r := ValidSingle(rest, 0);
      if r.Bad? {
        return;
      }
      rest := r.rem;
    }
    return Rem(s);
  }

  // ---------------------------------------------------------------- printing and scanning are inverse

  function Shift(k: nat, i: int): int
  {
    if i == -1 then -1 else k + i
  }

  /** One step of the search over a byte that does not close the last open bracket. */
  lemma ClosingStep(c: byte, w: bytes, left: byte, right: byte, n: nat)
    requires n > 0 && (c == right ==> c != left && n > 1)
    ensures var m := if c == left then n + 1 else if c == right then n - 1 else n;
            Closing([c] + w, left, right, n) == Shift(1, Closing(w, left, right, m))
  {
    Parted([c], w);
  }

  lemma PrintShape(t: Ty, w: bytes)
    ensures t.Array? ==> Print(t) + w == ['a'] + (Print(t.elem) + w)
    ensures t.Dict? ==> Print(t) + w == ['a'] + (['{'] + ([t.key] + (Print(t.val) + (['}'] + w))))
    ensures t.Struct? ==> Print(t) + w == ['('] + (PrintAll(t.fields) + ([')'] + w))
  {
  }

  /** A printed type is balanced: with a bracket still open, the search for its partner runs past it. */
  lemma {:induction false} ClosingSkips(t: Ty, w: bytes, left: byte, right: byte, n: nat)
    requires Lettered(t) && n > 0 && Brackets(left, right)
    ensures Closing(Print(t) + w, left, right, n) == Shift(|Print(t)|, Closing(w, left, right, n))
    decreases t, 0
  {
    hide Closing, PrintAll;
    match t
    case Basic(c) =>
      ClosingStep(c, w, left, right, n);
    case Array(e) =>
      ClosingSkips(e, w, left, right, n);
      ClosingStep('a', Print(e) + w, left, right, n);
      PrintShape(t, w);
    case Dict(k, v) =>
      ClosingSkips(v, ['}'] + w, left, right, if left == '{' then n + 1 else n);
      DictSkips(k, Print(v), w, left, right, n);
      PrintShape(t, w);
    case Struct(fs) =>
      ClosingSkipsAll(fs, [')'] + w, left, right, if left == '(' then n + 1 else n);
      StructSkips(PrintAll(fs), w, left, right, n);
      PrintShape(t, w);
  }

  lemma StructSkips(fs: bytes, w: bytes, left: byte, right: byte, n: nat)
    requires n > 0 && Brackets(left, right)
    requires var m := if left == '(' then n + 1 else n;
             Closing(fs + ([')'] + w), left, right, m) == Shift(|fs|, Closing([')'] + w, left, right, m))
    ensures Closing(['('] + (fs + ([')'] + w)), left, right, n) == Shift(2 + |fs|, Closing(w, left, right, n))
  {
    hide Closing;
    ClosingStep(')', w, left, right, if left == '(' then n + 1 else n);
    ClosingStep('(', fs + ([')'] + w), left, right, n);
  }

  lemma DictSkips(k: byte, v: bytes, w: bytes, left: byte, right: byte, n: nat)
    requires IsBasic(k) && n > 0 && Brackets(left, right)
    requires var m := if left == '{' then n + 1 else n;
             Closing(v + (['}'] + w), left, right, m) == Shift(|v|, Closing(['}'] + w, left, right, m))
    ensures Closing(['a'] + (['{'] + ([k] + (v + (['}'] + w)))), left, right, n)
         == Shift(4 + |v|, Closing(w, left, right, n))
  {
    hide Closing;
    var m := if left == '{' then n + 1 else n;
    ClosingStep('}', w, left, right, m);
    var tail := v + (['}'] + w);
    ClosingStep(k, tail, left, right, m);
    ClosingStep('{', [k] + tail, left, right, n);
    ClosingStep('a', ['{'] + ([k] + tail), left, right, n);
  }

  lemma {:induction false} ClosingSkipsAll(ts: seq<Ty>, w: bytes, left: byte, right: byte, n: nat)
    requires LetteredAll(ts) && n > 0 && Brackets(left, right)
    ensures Closing(PrintAll(ts) + w, left, right, n) == Shift(|PrintAll(ts)|, Closing(w, left, right, n))
    decreases ts, 1
  {
    if ts == [] {
      assert PrintAll(ts) + w == w;
    } else {
      ClosingSkipsAll(ts[1..], w, left, right, n);
      ClosingSkips(ts[0], PrintAll(ts[1..]) + w, left, right, n);
      assert PrintAll(ts) + w == Print(ts[0]) + (PrintAll(ts[1..]) + w);
    }
  }

  lemma Cut(body: bytes, w: bytes, left: byte, right: byte)
    requires Brackets(left, right)
    requires Closing([left] + (body + ([right] + w)), left, right, 0) == 1 + |body|
    ensures Bracketed([left] + (body + ([right] + w)), left, right) == Parts(body, w)
  {
    var s := [left] + (body + ([right] + w));
    assert s[1..1 + |body|] == body && s[2 + |body|..] == w;
  }

  lemma DictCloses(k: byte, v: Ty, w: bytes)
    requires IsBasic(k) && Lettered(v)
    ensures Bracketed(['{'] + (([k] + Print(v)) + (['}'] + w)), '{', '}') == Parts([k] + Print(v), w)
  {
    var close: bytes := ['}'] + w;
    var tail := Print(v) + close;
    assert Closing(close, '{', '}', 1) == 0;
    ClosingSkips(v, close, '{', '}', 1);
    ClosingStep(k, tail, '{', '}', 1);
    Parted(['{'], [k] + tail);
    Assoc([k], Print(v), close);
    Cut([k] + Print(v), w, '{', '}');
  }

  lemma StructCloses(fs: seq<Ty>, w: bytes)
    requires LetteredAll(fs)
    ensures Bracketed(['('] + (PrintAll(fs) + ([')'] + w)), '(', ')') == Parts(PrintAll(fs), w)
  {
    var close: bytes := [')'] + w;
    assert Closing(close, '(', ')', 1) == 0;
    ClosingSkipsAll(fs, close, '(', ')', 1);
    Parted(['('], PrintAll(fs) + close);
    Cut(PrintAll(fs), w, '(', ')');
  }

  lemma ScanBehindA(w: bytes, depth: nat)
    requires w != [] && depth <= MAX_NESTING
    ensures ScanOne(['a'] + w, depth) == if w[0] == '{' then ScanEntry(w, depth + 1) else ScanOne(w, depth + 1)
  {
    Parted(['a'], w);
  }

  lemma ScanDict(k: byte, v: Ty, w: bytes, depth: nat)
    requires IsBasic(k) && Lettered(v) && depth < MAX_NESTING
    requires ScanOne(Print(v), depth + 1) == Rem([])
    ensures ScanOne(Print(Dict(k, v)) + w, depth) == Rem(w)
  {
    var tail := ['{'] + (([k] + Print(v)) + (['}'] + w));
    assert ScanEntry(tail, depth + 1) == Rem(w) by {
      DictCloses(k, v, w);
      Parted([k], Print(v));
      assert ScanOne([k], depth + 1).Rem?;
    }
    DictShape(k, v, w);
    ScanBehindA(tail, depth);
  }

  lemma ScanArray(e: Ty, w: bytes, depth: nat)
    requires Lettered(e) && depth < MAX_NESTING
    requires ScanOne(Print(e) + w, depth + 1) == Rem(w)
    ensures ScanOne(Print(Array(e)) + w, depth) == Rem(w)
  {
    PrintStart(e);
    PrintShape(Array(e), w);
    ScanBehindA(Print(e) + w, depth);
  }

  lemma ScanStruct(fs: seq<Ty>, w: bytes, depth: nat)
    requires LetteredAll(fs) && depth <= MAX_NESTING
    requires ScanList(PrintAll(fs), depth + 1) == Rem([])
    ensures ScanOne(Print(Struct(fs)) + w, depth) == Rem(w)
  {
    StructCloses(fs, w);
    PrintShape(Struct(fs), w);
    assert (Print(Struct(fs)) + w)[0] == '(';
  }

  lemma ScanLetter(c: byte, w: bytes, depth: nat)
    requires IsBasic(c) && depth <= MAX_NESTING
    ensures ScanOne([c] + w, depth) == Rem(w)
  {
    hide IsBasic;
    Parted([c], w);
  }

  /** Scanning the printed form of a type followed by anything leaves exactly that. */
  lemma {:induction false} ScanPrint(t: Ty, w: bytes, depth: nat)
    requires Lettered(t) && depth + Nest(t) <= MAX_NESTING
    ensures ScanOne(Print(t) + w, depth) == Rem(w)
    decreases t, 0
  {
    hide ScanOne, ScanList, ScanEntry, PrintAll, IsBasic;
    match t
    case Basic(c) => ScanLetter(c, w, depth);
    case Array(e) =>
      ScanPrint(e, w, depth + 1);
      ScanArray(e, w, depth);
    case Dict(k, v) =>
      ScanPrint(v, [], depth + 1);
      assert Print(v) + [] == Print(v);
      ScanDict(k, v, w, depth);
    case Struct(fs) =>
      ScanPrintAll(fs, depth + 1);
      ScanStruct(fs, w, depth);
  }

  lemma {:induction false} ScanPrintAll(ts: seq<Ty>, depth: nat)
    requires LetteredAll(ts) && (ts != [] ==> depth + NestAll(ts) <= MAX_NESTING)
    ensures ScanList(PrintAll(ts), depth) == Rem([])
    decreases ts, 1
  {
    if ts == [] {
    } else {
      ScanPrint(ts[0], PrintAll(ts[1..]), depth);
      ScanPrintAll(ts[1..], depth);
    }
  }

  lemma PrintStart(t: Ty)
    requires Lettered(t)
    ensures Print(t)[0] != '{' && Print(t)[0] != ')'
  {
  }

  // ---------------------------------------------------------------- a signature determines its types

  /** The key letter and value signature of a dict, from the opening brace on. */
  function EntryOf(s: bytes, depth: nat): (kv: bytes)
    requires s != [] && s[0] == '{' && ScanEntry(s, depth).Rem?
    ensures 0 < |kv| < |s| && IsBasic(kv[0]) && depth <= MAX_NESTING
    ensures ScanOne(kv[1..], depth) == Rem([])
    ensures s == ['{'] + (kv + (['}'] + ScanEntry(s, depth).rem))
  {
    var kv := Bracketed(s, '{', '}').body;
    KeyLetter(kv[..1], depth);
    kv
  }

  /** The field signatures of a struct. */
  function FieldsOf(s: bytes, depth: nat): (fs: bytes)
    requires s != [] && s[0] == '(' && ScanOne(s, depth).Rem?
    ensures |fs| < |s| && depth <= MAX_NESTING && ScanList(fs, depth + 1) == Rem([])
    ensures s == ['('] + fs + [')'] + ScanOne(s, depth).rem
  {
    Bracketed(s, '(', ')').body
  }

  lemma Letter(s: bytes, depth: nat)
    requires ScanOne(s, depth).Rem?
    ensures s != [] && s == [s[0]] + s[1..] && depth <= MAX_NESTING
    ensures IsBasic(s[0]) || s[0] == 'a' || s[0] == '('
    ensures s[0] == 'a' ==> s[1..] != []
    ensures s[0] == 'a' ==> ScanOne(s, depth) == if s[1] == '{' then ScanEntry(s[1..], depth + 1) else ScanOne(s[1..], depth + 1)
  {
  }

  /** typeFor, keeping the field types of a struct. */
  function TypeFor(s: bytes, depth: nat): Ty
    requires ScanOne(s, depth).Rem?
    decreases |s|, 0
  {
    Letter(s, depth);
    if IsBasic(s[0]) then Basic(s[0])
    else if s[0] == 'a' && s[1] == '{' then
      var kv := EntryOf(s[1..], depth + 1);
      Dict(kv[0], TypeFor(kv[1..], depth + 1))
    else if s[0] == 'a' then
      Array(TypeFor(s[1..], depth + 1))
    else
      Struct(TypesFor(FieldsOf(s, depth), depth + 1))
  }

  /** The types of a whole signature. */
  function TypesFor(s: bytes, depth: nat): seq<Ty>
    requires ScanList(s, depth).Rem?
    decreases |s|, 1
  {
    if s == [] then [] else
    [TypeFor(s, depth)] + TypesFor(ScanOne(s, depth).rem, depth)
  }

  lemma KeyLetter(k: bytes, depth: nat)
    requires |k| == 1 && ScanOne(k, depth).Rem?
    ensures IsBasic(k[0])
  {
    if k[0] == 'a' {
      assert k[1..] == [];
    }
  }

  predicate Printed(s: bytes, depth: nat)
    requires ScanOne(s, depth).Rem?
  {
    var t := TypeFor(s, depth);
    Lettered(t) && depth + Nest(t) <= MAX_NESTING && s == Print(t) + ScanOne(s, depth).rem
  }

  predicate AllPrinted(s: bytes, depth: nat)
    requires ScanList(s, depth).Rem?
  {
    var ts := TypesFor(s, depth);
    LetteredAll(ts) && (ts != [] ==> depth + NestAll(ts) <= MAX_NESTING) && s == PrintAll(ts)
  }

  lemma BasicPrinted(s: bytes, depth: nat)
    requires ScanOne(s, depth).Rem? && IsBasic(s[0])
    ensures Printed(s, depth)
  {
    hide IsBasic;
    assert TypeFor(s, depth) == Basic(s[0]);
  }

  lemma DictPrinted(s: bytes, depth: nat)
    requires |s| > 1 && s[0] == 'a' && s[1] == '{' && ScanOne(s, depth).Rem?
    requires ScanEntry(s[1..], depth + 1).Rem? && Printed(EntryOf(s[1..], depth + 1)[1..], depth + 1)
    ensures Printed(s, depth)
  {
    Letter(s, depth);
    var kv, rem := EntryOf(s[1..], depth + 1), ScanOne(s, depth).rem;
    var v := TypeFor(kv[1..], depth + 1);
    assert TypeFor(s, depth) == Dict(kv[0], v);
    assert kv == [kv[0]] + kv[1..];
    assert Print(v) == kv[1..];
    DictShape(kv[0], v, rem);
  }

  lemma DictShape(k: byte, v: Ty, rem: bytes)
    ensures ['a'] + (['{'] + (([k] + Print(v)) + (['}'] + rem))) == Print(Dict(k, v)) + rem
  {
    PrintShape(Dict(k, v), rem);
    Assoc([k], Print(v), ['}'] + rem);
  }

  lemma ArrayType(s: bytes, depth: nat)
    requires |s| > 1 && s[0] == 'a' && s[1] != '{' && ScanOne(s, depth).Rem? && ScanOne(s[1..], depth + 1).Rem?
    ensures TypeFor(s, depth) == Array(TypeFor(s[1..], depth + 1))
  {
    hide ScanOne, ScanEntry, ScanList;
  }

  lemma ArrayPrinted(s: bytes, depth: nat)
    requires |s| > 1 && s[0] == 'a' && s[1] != '{' && ScanOne(s, depth).Rem?
    requires ScanOne(s[1..], depth + 1).Rem? && Printed(s[1..], depth + 1)
    ensures Printed(s, depth)
  {
    hide ScanOne, ScanEntry, ScanList, IsBasic;
    Letter(s, depth);
    var e := TypeFor(s[1..], depth + 1);
    assert TypeFor(s, depth) == Array(e) by { ArrayType(s, depth); }
    PrintShape(Array(e), ScanOne(s, depth).rem);
  }

  lemma StructPrinted(s: bytes, depth: nat)
    requires s != [] && s[0] == '(' && ScanOne(s, depth).Rem?
    requires AllPrinted(FieldsOf(s, depth), depth + 1)
    ensures Printed(s, depth)
  {
    assert TypeFor(s, depth) == Struct(TypesFor(FieldsOf(s, depth), depth + 1));
  }

  /** What was scanned is the printed form of the type found. */
  lemma {:induction false} TypeForPrints(s: bytes, depth: nat)
    requires ScanOne(s, depth).Rem?
    ensures Printed(s, depth)
    decreases |s|, 0
  {
    hide ScanOne, ScanEntry, ScanList, TypeFor, Printed, AllPrinted, IsBasic;
    Letter(s, depth);
    if IsBasic(s[0]) {
      BasicPrinted(s, depth);
    } else if s[0] == 'a' && s[1] == '{' {
      TypeForPrints(EntryOf(s[1..], depth + 1)[1..], depth + 1);
      DictPrinted(s, depth);
    } else if s[0] == 'a' {
      TypeForPrints(s[1..], depth + 1);
      ArrayPrinted(s, depth);
    } else {
      TypesForPrints(FieldsOf(s, depth), depth + 1);
      StructPrinted(s, depth);
    }
  }

  lemma {:induction false} TypesForPrints(s: bytes, depth: nat)
    requires ScanList(s, depth).Rem?
    ensures AllPrinted(s, depth)
    decreases |s|, 1
  {
    if s == [] {
    } else {
      TypeForPrints(s, depth);
      TypesForPrints(ScanOne(s, depth).rem, depth);
    }
  }

  /** The strings the scanner accepts at a depth are exactly the printed types that fit in it. */
  lemma ScanAcceptsExactlyPrinted(s: bytes, w: bytes, depth: nat)
    ensures ScanOne(s, depth) == Rem(w)
       <==> exists t :: Lettered(t) && depth + Nest(t) <= MAX_NESTING && s == Print(t) + w
  {
    if ScanOne(s, depth) == Rem(w) {
      TypeForPrints(s, depth);
      var t := TypeFor(s, depth);
      assert Lettered(t) && depth + Nest(t) <= MAX_NESTING && s == Print(t) + w;
    }
    forall t | Lettered(t) && depth + Nest(t) <= MAX_NESTING && s == Print(t) + w
      ensures ScanOne(s, depth) == Rem(w)
    {
      ScanPrint(t, w, depth);
    }
  }

  lemma DictIsNoArray(t: Ty, u: Ty)
    requires t.Dict? && Lettered(u)
    ensures u.Array? ==> Print(t)[..2] != Print(u)[..2]
  {
    hide IsBasic;
    if u.Array? {
      PrintStart(u.elem);
      assert Print(u)[1] == Print(u.elem)[0];
    }
  }

  lemma {:induction false} PrintPrefixFree(t: Ty, u: Ty, w: bytes, x: bytes)
    requires Lettered(t) && Lettered(u) && Nest(t) <= MAX_NESTING && Nest(u) <= MAX_NESTING
    requires Print(t) + w == Print(u) + x
    ensures w == x && t == u
    decreases t, 0
  {
    hide ScanOne, ScanList, ScanEntry, IsBasic;
    ScanPrint(t, w, 0);
    ScanPrint(u, x, 0);
    assert |Print(t)| == |Print(u)|;
    assert Print(t) == (Print(t) + w)[..|Print(t)|] == Print(u);
    assert Print(t)[0] == Print(u)[0];
    match t
    case Basic(c) =>
    case Array(e) =>
      PrintStart(e);
      assert Print(t)[1] == Print(e)[0];
      assert Print(t)[1..] == Print(e) && Print(u)[1..] == Print(u.elem);
      PrintPrefixFree(e, u.elem, [], []);
    case Dict(k, v) =>
      DictIsNoArray(t, u);
      var n := |Print(t)|;
      assert Print(t)[2] == k && Print(u)[2] == u.key;
      assert Print(t)[3..n - 1] == Print(v) && Print(u)[3..n - 1] == Print(u.val);
      PrintPrefixFree(v, u.val, [], []);
    case Struct(fs) =>
      var n := |Print(t)|;
      assert Print(t)[1..n - 1] == PrintAll(fs) && Print(u)[1..n - 1] == PrintAll(u.fields);
      PrintAllInjective(fs, u.fields);
  }

  /** A signature string determines its sequence of types. */
  lemma {:induction false} PrintAllInjective(ts: seq<Ty>, us: seq<Ty>)
    requires LetteredAll(ts) && LetteredAll(us)
    requires NestAll(ts) <= MAX_NESTING && NestAll(us) <= MAX_NESTING
    requires PrintAll(ts) == PrintAll(us)
    ensures ts == us
    decreases ts, 1
  {
    if ts == [] || us == [] {
    } else {
      PrintPrefixFree(ts[0], us[0], PrintAll(ts[1..]), PrintAll(us[1..]));
      PrintAllInjective(ts[1..], us[1..]);
      assert ts == [ts[0]] + ts[1..] && us == [us[0]] + us[1..];
    }
  }

  /** typeFor inverts getSignature, whatever follows the signature. */
  lemma TypeForPrint(t: Ty, w: bytes, depth: nat)
    requires Lettered(t) && depth + Nest(t) <= MAX_NESTING
    ensures ScanOne(Print(t) + w, depth) == Rem(w) && TypeFor(Print(t) + w, depth) == t
  {
    ScanPrint(t, w, depth);
    TypeForPrints(Print(t) + w, depth);
    PrintPrefixFree(t, TypeFor(Print(t) + w, depth), w, w);
  }

  // ---------------------------------------------------------------- the panic on an empty dict body

  ghost predicate HasEmptyDict(s: bytes)
  {
    exists i :: 0 <= i <= |s| - 3 && s[i] == 'a' && s[i + 1] == '{' && s[i + 2] == '}'
  }

  lemma PartHasEmptyDict(s: bytes, a: bytes, t: bytes, b: bytes)
    requires s == a + t + b && HasEmptyDict(t)
    ensures HasEmptyDict(s)
  {
    var i :| 0 <= i <= |t| - 3 && t[i] == 'a' && t[i + 1] == '{' && t[i + 2] == '}';
    assert s[|a| + i] == t[i] && s[|a| + i + 1] == t[i + 1] && s[|a| + i + 2] == t[i + 2];
  }

  /** The scan panics only on a string with an empty dict body. */
  lemma {:induction false} PanicHasEmptyDict(s: bytes, depth: nat)
    requires ScanOne(s, depth) == Bad(SliceOutOfRange)
    ensures HasEmptyDict(s)
    decreases |s|, 0
  {
    hide HasEmptyDict, ScanOne, ScanEntry, ScanList, Bracketed;
    PanicInside(s, depth);
    if s[0] == '(' {
      var parts := Bracketed(s, '(', ')');
      ListPanicHasEmptyDict(parts.body, depth + 1);
      PartHasEmptyDict(s, ['('], parts.body, [')'] + parts.rem);
    } else if s[1] == '{' {
      EntryPanicHasEmptyDict(s[1..], depth + 1);
      if HasEmptyDict(s[1..]) {
        PartHasEmptyDict(s, ['a'], s[1..], []);
      } else {
        EmptyDictAtStart(s);
      }
    } else {
      PanicHasEmptyDict(s[1..], depth + 1);
      PartHasEmptyDict(s, ['a'], s[1..], []);
    }
  }

  /** Where a scan of one type panics. */
  lemma PanicInside(s: bytes, depth: nat)
    requires ScanOne(s, depth) == Bad(SliceOutOfRange)
    ensures s != [] && (s[0] == '(' || s[0] == 'a') && s == [s[0]] + s[1..]
    ensures s[0] == '(' ==> var parts := Bracketed(s, '(', ')');
                            parts.Parts? && ScanList(parts.body, depth + 1) == Bad(SliceOutOfRange)
    ensures s[0] == 'a' ==> |s| > 1 && (if s[1] == '{' then ScanEntry(s[1..], depth + 1) else ScanOne(s[1..], depth + 1))
                                       == Bad(SliceOutOfRange)
  {
    hide ScanEntry, ScanList, Bracketed;
  }

  lemma EmptyDictAtStart(s: bytes)
    requires |s| >= 3 && s[0] == 'a' && s[1] == '{' && s[2] == '}'
    ensures HasEmptyDict(s)
  {
  }

  lemma {:induction false} EntryPanicHasEmptyDict(s: bytes, depth: nat)
    requires s != [] && s[0] == '{' && ScanEntry(s, depth) == Bad(SliceOutOfRange)
    ensures HasEmptyDict(s) || (|s| >= 2 && s[1] == '}')
    decreases |s|, 1
  {
    hide HasEmptyDict, Closing, ScanOne;
    var body, rem := Bracketed(s, '{', '}').body, Bracketed(s, '{', '}').rem;
    if body == [] {
    } else {
      assert ScanOne(body[..1], depth) != Bad(SliceOutOfRange) by { OneByteScans(body[..1], depth); }
      PanicHasEmptyDict(body[1..], depth);
      assert s == (['{'] + body[..1]) + body[1..] + (['}'] + rem);
      PartHasEmptyDict(s, ['{'] + body[..1], body[1..], ['}'] + rem);
    }
  }

  lemma OneByteScans(s: bytes, depth: nat)
    requires |s| == 1
    ensures ScanOne(s, depth) != Bad(SliceOutOfRange)
  {
  }

  lemma {:induction false} ListPanicHasEmptyDict(s: bytes, depth: nat)
    requires ScanList(s, depth) == Bad(SliceOutOfRange)
    ensures HasEmptyDict(s)
    decreases |s|, 1
  {
    hide HasEmptyDict, ScanOne;
    var r := ScanOne(s, depth);
    if r.Bad? {
      PanicHasEmptyDict(s, depth);
    } else {
      ListPanicHasEmptyDict(r.rem, depth);
      PartHasEmptyDict(s, s[..|s| - |r.rem|], r.rem, []);
    }
  }

  /** It does panic on one behind complete types, whatever follows. */
  lemma {:induction false} EmptyDictPanics(ts: seq<Ty>, w: bytes, depth: nat)
    requires LetteredAll(ts) && depth + NestAll(ts) <= MAX_NESTING && depth < MAX_NESTING
    ensures ScanList(PrintAll(ts) + ("a{}" + w), depth) == Bad(SliceOutOfRange)
    decreases |ts|
  {
    hide ScanOne, ScanList, Print, IsBasic;
    var bad := "a{}" + w;
    if ts == [] {
      assert PrintAll(ts) + bad == bad;
      EmptyDictBody(w, depth);
      ListStep(bad, depth);
    } else {
      var rest := PrintAll(ts[1..]) + bad;
      ScanPrint(ts[0], rest, depth);
      EmptyDictPanics(ts[1..], w, depth);
      Assoc(Print(ts[0]), PrintAll(ts[1..]), bad);
      ListStep(Print(ts[0]) + rest, depth);
    }
  }

  lemma ListStep(s: bytes, depth: nat)
    requires s != []
    ensures var r := ScanOne(s, depth); ScanList(s, depth) == if r.Bad? then r else ScanList(r.rem, depth)
  {
    hide ScanOne;
  }

  lemma EmptyDictBody(w: bytes, depth: nat)
    requires depth < MAX_NESTING
    ensures ScanOne("a{}" + w, depth) == Bad(SliceOutOfRange)
  {
    var s := "a{}" + w;
    var close: bytes := ['}'] + w;
    assert s[1..] == ['{'] + close;
    assert Closing(close, '{', '}', 1) == 0;
    assert Closing(['{'] + close, '{', '}', 0) == 1 by { Parted(['{'], close); }
    assert [] + close == close;
    Cut([], w, '{', '}');
  }

  // ---------------------------------------------------------------- Signature.Single

  /** Signature.Single as written: it answers true when there was an error (and rem is then ""). None: it panics. */
  function Single(s: bytes): Option<bool>
  {
    if ScanOne(s, 0) == Bad(SliceOutOfRange) then None else Some(ScanOne(s, 0).Bad?)
  }

  /** Single should say whether s is one complete type. It does so exactly when text follows a complete type. */
  lemma SingleMeetsItsDocumentationExactly(s: bytes)
    ensures Single(s) == Some(ScanOne(s, 0) == Rem([])) <==> ScanOne(s, 0).Rem? && ScanOne(s, 0).rem != []
    ensures ScanOne("i", 0) == Rem([]) && Single("i") == Some(false)
    ensures ScanOne("", 0).Bad? && Single("") == Some(true)
  {
  }
}
