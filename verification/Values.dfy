/** Values, their types, and the D-Bus marshalling they should have. */
module Values {
  import opened Bytes
  import opened Signature

  /** Containers nest at most this deep. */
  const MAX_DEPTH := 64

  /** A value. A dict is a List of entries, each the Tuple of its key and value it is marshalled as. */
  datatype Value =
    | Num(n: int)                // y n q i u x t h, and d as its bit pattern
    | Boolean(b: bool)
    | Text(s: bytes)             // s and o
    | Sig(s: bytes)              // g
    | Variant(ty: Ty, v: Value)  // v, with the signature Print(ty)
    | List(vs: seq<Value>)
    | Tuple(vs: seq<Value>)

  // ---------------------------------------------------------------- basic types

  function Size(c: byte): nat
  {
    if c == 'y' then 1
    else if c == 'n' || c == 'q' then 2
    else if c == 'i' || c == 'u' || c == 'h' then 4
    else 8
  }

  predicate IsSigned(c: byte)
  {
    c == 'n' || c == 'i' || c == 'x'
  }

  predicate IsNumber(c: byte)
  {
    IsBasic(c) && c != 'b' && c != 's' && c != 'o' && c != 'g' && c != 'v'
  }

  predicate InRange(c: byte, n: int)
  {
    if IsSigned(c) then 0 - Half(c) <= n < Half(c) else 0 <= n < Pow256(Size(c))
  }

  /** Half the number of values of the type. */
  function Half(c: byte): nat
  {
    128 * Pow256(Size(c) - 1)
  }

  /** Two's complement. */
  function ToBits(c: byte, n: int): (m: nat)
    requires InRange(c, n)
    ensures m < Pow256(Size(c))
  {
    if n < 0 then n + Pow256(Size(c)) else n
  }

  function FromBits(c: byte, m: nat): int
  {
    if IsSigned(c) && m >= Half(c) then m - Pow256(Size(c)) else m
  }

  lemma FromToBits(c: byte, n: int)
    requires InRange(c, n)
    ensures FromBits(c, ToBits(c, n)) == n
  {
  }

  /** alignment, by the first letter of the signature. A boolean is aligned when its uint32 is written. */
  function LetterAlignment(c: byte): (n: nat)
    ensures n == 1 || n == 2 || n == 4 || n == 8
  {
    if c == 'n' || c == 'q' then 2
    else if c == 'i' || c == 'u' || c == 'h' || c == 's' || c == 'o' || c == 'a' then 4
    else if c == 'x' || c == 't' || c == 'd' || c == '(' then 8
    else 1
  }

  function Alignment(t: Ty): nat
  {
    LetterAlignment(Print(t)[0])
  }

  /** isKeyType. */
  predicate IsKey(c: byte)
  {
    IsBasic(c) && c != 'b' && c != 'g' && c != 'v'
  }

  // ---------------------------------------------------------------- typing

  /** The types of the parts of a container: all the same for arrays and dicts, one each for structs. */
  datatype Row = Every(t: Ty) | Each(ts: seq<Ty>)
  {
    predicate Fits(n: nat)
    {
      Each? ==> |ts| == n
    }

    function Head(): Ty
      requires Each? ==> ts != []
    {
      if Every? then t else ts[0]
    }

    function Tail(): Row
      requires Each? ==> ts != []
    {
      if Every? then this else Each(ts[1..])
    }
  }

  predicate IsList(t: Ty)
  {
    t.Array? || t.Dict?
  }

  function ElemType(t: Ty): Ty
    requires IsList(t)
  {
    if t.Array? then t.elem else Struct([Basic(t.key), t.val])
  }

  /** v is a Go value of the type t. The keys of a Go map are distinct. */
  predicate HasType(v: Value, t: Ty)
    decreases v, 0
  {
    match t
    case Basic(c) =>
      IsBasic(c) &&
      if c == 'b' then v.Boolean?
      else if c == 's' || c == 'o' then v.Text?
      else if c == 'g' then v.Sig?
      else if c == 'v' then v.Variant? && HasType(v.v, v.ty)
      else v.Num? && InRange(c, v.n)
    case Struct(fs) => v.Tuple? && HaveTypes(v.vs, Each(fs))
    case Array(e) => v.List? && HaveTypes(v.vs, Every(e))
    case Dict(k, e) => v.List? && HaveTypes(v.vs, Every(ElemType(t))) && DistinctKeys(v.vs)
  }

  predicate HaveTypes(vs: seq<Value>, row: Row)
    decreases vs, 1
  {
    && row.Fits(|vs|)
    && (vs != [] ==> HasType(vs[0], row.Head()) && HaveTypes(vs[1..], row.Tail()))
  }

  predicate IsEntry(v: Value)
  {
    v.Tuple? && |v.vs| == 2
  }

  predicate DistinctKeys(es: seq<Value>)
  {
    && (forall i :: 0 <= i < |es| ==> IsEntry(es[i]))
    && (forall i, j :: 0 <= i < j < |es| ==> es[i].vs[0] != es[j].vs[0])
  }

  // ---------------------------------------------------------------- the D-Bus wire format

  /** A signature on the wire: length byte, text, NUL. */
  function SigBytes(s: bytes): bytes
  {
    [ToByte(|s|)] + s + ['\0']
  }

  function U32(order: Order, n: nat): (b: bytes)
    ensures |b| == 4
  {
    Put(order, n, 4)
  }

  /** A basic value other than a variant. */
  function Scalar(c: byte, v: Value, order: Order, p: nat): bytes
    requires HasType(v, Basic(c)) && c != 'v'
  {
    if c == 'b' then Pad(p, 4) + U32(order, if v.b then 1 else 0)
    else if c == 's' || c == 'o' then Pad(p, 4) + (U32(order, |v.s|) + (v.s + ['\0']))
    else if c == 'g' then SigBytes(v.s)
    else Pad(p, Size(c)) + Put(order, ToBits(c, v.n), Size(c))
  }

  /**
    "Marshaling (Wire Format)" of the D-Bus Specification: the bytes of v at position p of a message,
    where every alignment is counted from the start of the message.
   */
  function Marshal(t: Ty, v: Value, order: Order, p: nat): bytes
    requires HasType(v, t)
    decreases v, 0
  {
    match t
    case Basic(c) =>
      if c != 'v' then Scalar(c, v, order, p) else
      var sig := SigBytes(Print(v.ty));
      sig + Marshal(v.ty, v.v, order, p + |sig|)
    case Struct(fs) => Pad(p, 8) + MarshalAll(Each(fs), v.vs, order, AlignUp(p, 8))
    case _ =>
      var e := ElemType(t);
      Framed(e, MarshalAll(Every(e), v.vs, order, DataStart(e, p)), order, p)
  }

  /** An array at p with the given element bytes: length, padding to the element type, elements. */
  function Framed(e: Ty, body: bytes, order: Order, p: nat): (b: bytes)
    ensures p + |b| == DataStart(e, p) + |body|
  {
    Pad(p, 4) + (U32(order, |body|) + (Pad(AlignUp(p, 4) + 4, Alignment(e)) + body))
  }

  /** Where the elements of an array at p start. */
  function DataStart(e: Ty, p: nat): (q: nat)
    ensures q >= p + 4
  {
    AlignUp(AlignUp(p, 4) + 4, Alignment(e))
  }

  function MarshalAll(row: Row, vs: seq<Value>, order: Order, p: nat): bytes
    requires HaveTypes(vs, row)
    decreases vs, 1
  {
    if vs == [] then [] else
    var b := Marshal(row.Head(), vs[0], order, p);
    b + MarshalAll(row.Tail(), vs[1..], order, p + |b|)
  }

  // ---------------------------------------------------------------- positions that matter

  /** v contains a piece that is aligned to 8. */
  predicate Has8(t: Ty, v: Value)
    requires HasType(v, t)
    decreases v, 0
  {
    match t
    case Basic(c) => if c == 'v' then Has8(v.ty, v.v) else LetterAlignment(c) == 8
    case Struct(_) => true
    case _ => Alignment(ElemType(t)) == 8 || AnyHas8(Every(ElemType(t)), v.vs)
  }

  predicate AnyHas8(row: Row, vs: seq<Value>)
    requires HaveTypes(vs, row)
    decreases vs, 1
  {
    vs != [] && (Has8(row.Head(), vs[0]) || AnyHas8(row.Tail(), vs[1..]))
  }

  /** Moving by a multiple of 4 (of 8 where 8 is aligned to) moves the aligned position by as much. */
  lemma AlignShift(p: nat, k: int, j: int, n: nat)
    requires p + 4 * k >= 0 && (k == 2 * j || n == 1 || n == 2 || n == 4)
    ensures AlignUp(p + 4 * k, n) == AlignUp(p, n) + 4 * k
    ensures Pad(p + 4 * k, n) == Pad(p, n)
  {
    if n == 8 {
      assert (p + 8 * j + 7) / 8 == (p + 7) / 8 + j;
    } else if n == 4 {
      assert (p + 4 * k + 3) / 4 == (p + 3) / 4 + k;
    } else if n == 2 {
      assert (p + 4 * k + 1) / 2 == (p + 1) / 2 + 2 * k;
    }
  }

  lemma ScalarShift(c: byte, v: Value, order: Order, p: nat, k: int, j: int)
    requires HasType(v, Basic(c)) && c != 'v' && p + 4 * k >= 0 && (k == 2 * j || LetterAlignment(c) != 8)
    ensures Scalar(c, v, order, p + 4 * k) == Scalar(c, v, order, p)
  {
    AlignShift(p, k, j, 4);
    AlignShift(p, k, j, if c == 'b' || c == 'g' then 1 else LetterAlignment(c));
  }

  lemma DataStartShift(e: Ty, p: nat, k: int, j: int)
    requires p + 4 * k >= 0 && (k == 2 * j || Alignment(e) != 8)
    ensures DataStart(e, p + 4 * k) == DataStart(e, p) + 4 * k
    ensures forall b, order :: Framed(e, b, order, p + 4 * k) == Framed(e, b, order, p)
  {
    AlignShift(p, k, j, 4);
    AlignShift(AlignUp(p, 4) + 4, k, j, Alignment(e));
  }

  /** The wire format moved by 4k: the same bytes if 4k is a multiple of 8 or no piece is 8-aligned. */
  lemma {:induction false} MarshalShift(t: Ty, v: Value, order: Order, p: nat, k: int, j: int)
    requires HasType(v, t) && p + 4 * k >= 0 && (k == 2 * j || !Has8(t, v))
    ensures Marshal(t, v, order, p + 4 * k) == Marshal(t, v, order, p)
    decreases v, 0
  {
    hide AlignUp, Framed, DataStart, Scalar;
    match t
    case Basic(c) =>
      if c == 'v' {
        MarshalShift(v.ty, v.v, order, p + |SigBytes(Print(v.ty))|, k, j);
      } else {
        ScalarShift(c, v, order, p, k, j);
      }
    case Struct(fs) =>
      AlignShift(p, k, j, 8);
      MarshalAllShift(Each(fs), v.vs, order, AlignUp(p, 8), k, j);
    case _ =>
      DataStartShift(ElemType(t), p, k, j);
      MarshalAllShift(Every(ElemType(t)), v.vs, order, DataStart(ElemType(t), p), k, j);
  }

  lemma {:induction false} MarshalAllShift(row: Row, vs: seq<Value>, order: Order, p: nat, k: int, j: int)
    requires HaveTypes(vs, row) && p + 4 * k >= 0 && (k == 2 * j || !AnyHas8(row, vs))
    ensures MarshalAll(row, vs, order, p + 4 * k) == MarshalAll(row, vs, order, p)
    decreases vs, 1
  {
    hide Marshal, Has8, AlignUp;
    if vs == [] {
    } else {
      MarshalShift(row.Head(), vs[0], order, p, k, j);
      MarshalAllShift(row.Tail(), vs[1..], order, p + |Marshal(row.Head(), vs[0], order, p)|, k, j);
    }
  }

  /** Where the marshalled value ends. */
  lemma MarshalLength(t: Ty, v: Value, order: Order, p: nat)
    requires HasType(v, t)
    ensures var n := |Marshal(t, v, order, p)|;
            match t
            case Basic(c) =>
              if c != 'v' then n == |Scalar(c, v, order, p)|
              else var s := |SigBytes(Print(v.ty))|; n == s + |Marshal(v.ty, v.v, order, p + s)|
            case Struct(fs) => p + n == AlignUp(p, 8) + |MarshalAll(Each(fs), v.vs, order, AlignUp(p, 8))|
            case _ =>
              var d := DataStart(ElemType(t), p);
              p + n == d + |MarshalAll(Every(ElemType(t)), v.vs, order, d)|
  {
    hide AlignUp, DataStart, Framed, Scalar, MarshalAll, SigBytes;
  }

  /** Behind an 8-aligned piece two positions that differed by 4k differ by a multiple of 8. */
  lemma {:induction false} MarshalRealigns(t: Ty, v: Value, order: Order, p: nat, k: int) returns (j: int)
    requires HasType(v, t) && p + 4 * k >= 0 && Has8(t, v)
    ensures 4 * k + |Marshal(t, v, order, p + 4 * k)| == |Marshal(t, v, order, p)| + 8 * j
    decreases v, 1
  {
    hide Scalar, SigBytes, Print, MarshalAll, AnyHas8, HaveTypes, Framed, DataStart, AlignUp;
    if t.Struct? {
      j := StructRealigns(t, v, order, p, k);
    } else if !t.Basic? {
      j := ListRealigns(t, v, order, p, k);
    } else if t.c == 'v' {
      j := MarshalRealigns(v.ty, v.v, order, p + |SigBytes(Print(v.ty))|, k);
    } else {
      j := ScalarRealigns(t.c, v, order, p, k);
    }
  }

  lemma StructRealigns(t: Ty, v: Value, order: Order, p: nat, k: int) returns (j: int)
    requires t.Struct? && HasType(v, t) && p + 4 * k >= 0
    ensures 4 * k + |Marshal(t, v, order, p + 4 * k)| == |Marshal(t, v, order, p)| + 8 * j
  {
    hide AlignUp, Marshal, MarshalAll;
    var q := p + 4 * k;
    MarshalLength(t, v, order, p);
    MarshalLength(t, v, order, q);
    j := Step8(p, k);
    MarshalAllShift(Each(t.fields), v.vs, order, AlignUp(p, 8), 2 * j, j);
  }

  lemma {:induction false} ListRealigns(t: Ty, v: Value, order: Order, p: nat, k: int) returns (j: int)
    requires IsList(t) && HasType(v, t) && p + 4 * k >= 0 && Has8(t, v)
    ensures 4 * k + |Marshal(t, v, order, p + 4 * k)| == |Marshal(t, v, order, p)| + 8 * j
    decreases v, 0
  {
    hide AlignUp, DataStart, Framed, Marshal, MarshalAll, HaveTypes, AnyHas8;
    var e := ElemType(t);
    if Alignment(e) == 8 {
      j := DataStart8(e, p, k);
      ListRealigns8(t, v, order, p, k, j);
    } else {
      j := MarshalAllRealigns(Every(e), v.vs, order, DataStart(e, p), k);
      ListRealigns4(t, v, order, p, k, j);
    }
  }

  lemma ListLength(t: Ty, v: Value, order: Order, p: nat)
    requires IsList(t) && HasType(v, t)
    ensures HaveTypes(v.vs, Every(ElemType(t)))
    ensures var d := DataStart(ElemType(t), p);
            p + |Marshal(t, v, order, p)| == d + |MarshalAll(Every(ElemType(t)), v.vs, order, d)|
  {
    hide Marshal, MarshalAll, DataStart;
    MarshalLength(t, v, order, p);
  }

  lemma ElemsShift(t: Ty, v: Value, order: Order, d: nat, j: int)
    requires IsList(t) && HasType(v, t) && d + 8 * j >= 0
    ensures MarshalAll(Every(ElemType(t)), v.vs, order, d + 8 * j) == MarshalAll(Every(ElemType(t)), v.vs, order, d)
  {
    hide MarshalAll, AnyHas8;
    MarshalAllShift(Every(ElemType(t)), v.vs, order, d, 2 * j, j);
  }

  lemma ListRealigns8(t: Ty, v: Value, order: Order, p: nat, k: int, j: int)
    requires IsList(t) && HasType(v, t) && p + 4 * k >= 0
    requires DataStart(ElemType(t), p + 4 * k) == DataStart(ElemType(t), p) + 8 * j
    ensures 4 * k + |Marshal(t, v, order, p + 4 * k)| == |Marshal(t, v, order, p)| + 8 * j
  {
    hide *;
    ListLength(t, v, order, p);
    ListLength(t, v, order, p + 4 * k);
    ElemsShift(t, v, order, DataStart(ElemType(t), p), j);
  }

  lemma ListRealigns4(t: Ty, v: Value, order: Order, p: nat, k: int, j: int)
    requires IsList(t) && HasType(v, t) && p + 4 * k >= 0 && Alignment(ElemType(t)) != 8
    requires var e := ElemType(t);
             4 * k + |MarshalAll(Every(e), v.vs, order, DataStart(e, p) + 4 * k)|
             == |MarshalAll(Every(e), v.vs, order, DataStart(e, p))| + 8 * j
    ensures 4 * k + |Marshal(t, v, order, p + 4 * k)| == |Marshal(t, v, order, p)| + 8 * j
  {
    hide *;
    ListLength(t, v, order, p);
    ListLength(t, v, order, p + 4 * k);
    DataStartShift(ElemType(t), p, k, 0);
  }

  lemma ScalarRealigns(c: byte, v: Value, order: Order, p: nat, k: int) returns (j: int)
    requires HasType(v, Basic(c)) && p + 4 * k >= 0 && LetterAlignment(c) == 8
    ensures 4 * k + |Scalar(c, v, order, p + 4 * k)| == |Scalar(c, v, order, p)| + 8 * j
  {
    j := Step8(p, k);
  }

  lemma DataStart8(e: Ty, p: nat, k: int) returns (j: int)
    requires p + 4 * k >= 0 && Alignment(e) == 8
    ensures DataStart(e, p + 4 * k) == DataStart(e, p) + 8 * j
  {
    AlignShift(p, k, 0, 4);
    j := Step8(AlignUp(p, 4) + 4, k);
  }

  lemma Step8(p: nat, k: int) returns (j: int)
    requires p + 4 * k >= 0
    ensures AlignUp(p + 4 * k, 8) == AlignUp(p, 8) + 8 * j
  {
    j := (p + 4 * k + 7) / 8 - (p + 7) / 8;
  }

  lemma MarshalAllLength(row: Row, vs: seq<Value>, order: Order, p: nat)
    requires HaveTypes(vs, row) && vs != []
    ensures var n := |Marshal(row.Head(), vs[0], order, p)|;
            |MarshalAll(row, vs, order, p)| == n + |MarshalAll(row.Tail(), vs[1..], order, p + n)|
  {
    hide Marshal, HasType;
  }

  lemma {:induction false} MarshalAllRealigns(row: Row, vs: seq<Value>, order: Order, p: nat, k: int) returns (j: int)
    requires HaveTypes(vs, row) && p + 4 * k >= 0 && AnyHas8(row, vs)
    ensures 4 * k + |MarshalAll(row, vs, order, p + 4 * k)| == |MarshalAll(row, vs, order, p)| + 8 * j
    decreases vs, 1
  {
    hide Marshal, MarshalAll, Has8, AlignUp, HasType;
    var t, v := row.Head(), vs[0];
    if Has8(t, v) {
      j := MarshalRealigns(t, v, order, p, k);
      HeadRealigns(row, vs, order, p, k, p + |Marshal(t, v, order, p)|, j);
    } else {
      j := MarshalAllRealigns(row.Tail(), vs[1..], order, p + |Marshal(t, v, order, p)|, k);
      TailRealigns(row, vs, order, p, k, j);
    }
  }

  lemma HeadShift(row: Row, vs: seq<Value>, order: Order, p: nat, k: int)
    requires HaveTypes(vs, row) && vs != [] && p + 4 * k >= 0 && !Has8(row.Head(), vs[0])
    ensures Marshal(row.Head(), vs[0], order, p + 4 * k) == Marshal(row.Head(), vs[0], order, p)
  {
    hide Marshal, Has8;
    MarshalShift(row.Head(), vs[0], order, p, k, 0);
  }

  lemma TailShift(row: Row, vs: seq<Value>, order: Order, p: nat, j: int)
    requires HaveTypes(vs, row) && vs != [] && p + 8 * j >= 0
    ensures MarshalAll(row.Tail(), vs[1..], order, p + 8 * j) == MarshalAll(row.Tail(), vs[1..], order, p)
  {
    hide MarshalAll, AnyHas8;
    MarshalAllShift(row.Tail(), vs[1..], order, p, 2 * j, j);
  }

  lemma HeadRealigns(row: Row, vs: seq<Value>, order: Order, p: nat, k: int, next: nat, j: int)
    requires HaveTypes(vs, row) && vs != [] && p + 4 * k >= 0
    requires next == p + |Marshal(row.Head(), vs[0], order, p)|
    requires 4 * k + |Marshal(row.Head(), vs[0], order, p + 4 * k)| == |Marshal(row.Head(), vs[0], order, p)| + 8 * j
    ensures 4 * k + |MarshalAll(row, vs, order, p + 4 * k)| == |MarshalAll(row, vs, order, p)| + 8 * j
  {
    hide *;
    MarshalAllLength(row, vs, order, p);
    MarshalAllLength(row, vs, order, p + 4 * k);
    TailShift(row, vs, order, next, j);
  }

  lemma TailRealigns(row: Row, vs: seq<Value>, order: Order, p: nat, k: int, j: int)
    requires HaveTypes(vs, row) && vs != [] && p + 4 * k >= 0 && !Has8(row.Head(), vs[0])
    requires var next := p + |Marshal(row.Head(), vs[0], order, p)|;
             4 * k + |MarshalAll(row.Tail(), vs[1..], order, next + 4 * k)|
             == |MarshalAll(row.Tail(), vs[1..], order, next)| + 8 * j
    ensures 4 * k + |MarshalAll(row, vs, order, p + 4 * k)| == |MarshalAll(row, vs, order, p)| + 8 * j
  {
    hide *;
    MarshalAllLength(row, vs, order, p);
    MarshalAllLength(row, vs, order, p + 4 * k);
    HeadShift(row, vs, order, p, k);
  }
}
