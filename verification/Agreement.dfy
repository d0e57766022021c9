/** Which values the encoder accepts, and for which it writes the D-Bus wire format. */
module Agreement {
  import opened Bytes
  import opened Signature
  import opened Values
  import opened Encoding

  // ---------------------------------------------------------------- what encodes at all

  /** No container in v is refused. */
  predicate Encodable(t: Ty, v: Value, depth: nat)
    requires HasType(v, t)
    decreases v, 0
  {
    match t
    case Basic(c) => c == 'v' ==> depth < MAX_DEPTH && Encodable(v.ty, v.v, depth + 1)
    case Struct(fs) => depth < MAX_DEPTH && AllEncodable(Each(fs), v.vs, depth + 1)
    case _ => !Refused(t, depth) && AllEncodable(Every(ElemType(t)), v.vs, depth + 1)
  }

  predicate AllEncodable(row: Row, vs: seq<Value>, depth: nat)
    requires HaveTypes(vs, row)
    decreases vs, 1
  {
    vs != [] ==> Encodable(row.Head(), vs[0], depth) && AllEncodable(row.Tail(), vs[1..], depth)
  }

  /** Encoding fails exactly on nesting and key types, wherever the value stands. */
  lemma {:induction false} EncodesExactly(t: Ty, v: Value, order: Order, p: nat, depth: nat)
    requires HasType(v, t)
    ensures Enc(t, v, order, p, depth).ok <==> Encodable(t, v, depth)
    decreases v, 0
  {
    hide AlignUp, Scalar, Framed;
    match t
    case Basic(c) =>
      if c == 'v' && depth < MAX_DEPTH {
        EncodesExactly(v.ty, v.v, order, p + |SigBytes(Print(v.ty))|, depth + 1);
      }
    case Struct(fs) =>
      EncodeAllExactly(Each(fs), v.vs, order, AlignUp(p, 8), depth + 1);
    case _ =>
      EncodeAllExactly(Every(ElemType(t)), v.vs, order, 0, depth + 1);
  }

  lemma {:induction false} EncodeAllExactly(row: Row, vs: seq<Value>, order: Order, p: nat, depth: nat)
    requires HaveTypes(vs, row)
    ensures EncAll(row, vs, order, p, depth).ok <==> AllEncodable(row, vs, depth)
    decreases vs, 1
  {
    hide Enc, Encodable;
    if vs == [] {
    } else {
      EncodesExactly(row.Head(), vs[0], order, p, depth);
      var b := Enc(row.Head(), vs[0], order, p, depth);
      EncodeAllExactly(row.Tail(), vs[1..], order, p + |b.written|, depth);
    }
  }

  // ---------------------------------------------------------------- when it is the wire format

  /**
    With the encoder at p while the message is at q, every 8-aligned piece of v comes where the two
    agree modulo 8. Inside an array the encoder is back at 0 while the message has moved on.
   */
  predicate Stable(t: Ty, v: Value, order: Order, q: nat, p: nat)
    requires HasType(v, t)
    decreases v, 0
  {
    match t
    case Basic(c) =>
      if c == 'v' then
        var n := |SigBytes(Print(v.ty))|;
        Stable(v.ty, v.v, order, q + n, p + n)
      else LetterAlignment(c) == 8 ==> InStep(q, p)
    case Struct(fs) => InStep(q, p) && AllStable(Each(fs), v.vs, order, AlignUp(q, 8), AlignUp(p, 8))
    case _ =>
      var e := ElemType(t);
      && (Alignment(e) == 8 ==> InStep(q, p))
      && AllStable(Every(e), v.vs, order, DataStart(e, q), 0)
  }

  predicate AllStable(row: Row, vs: seq<Value>, order: Order, q: nat, p: nat)
    requires HaveTypes(vs, row)
    decreases vs, 1
  {
    vs != [] ==>
      var n := |Marshal(row.Head(), vs[0], order, q)|;
      Stable(row.Head(), vs[0], order, q, p) && AllStable(row.Tail(), vs[1..], order, q + n, p + n)
  }

  predicate InStep(q: nat, p: nat)
  {
    (q - p) % 8 == 0
  }

  /** A stable value that encodes is written in the wire format, 4k bytes further on. */
  lemma {:induction false} StableIsWireFormat(t: Ty, v: Value, order: Order, p: nat, k: int, depth: nat)
    requires HasType(v, t) && p + 4 * k >= 0
    requires Encodable(t, v, depth) && Stable(t, v, order, p + 4 * k, p)
    ensures Enc(t, v, order, p, depth) == Out(Marshal(t, v, order, p + 4 * k), true)
    decreases v, 0
  {
    hide AlignUp, Scalar, Framed, DataStart, InStep;
    var j := Halved(k);
    InStepHalved(p, k);
    match t
    case Basic(c) =>
      if c == 'v' {
        StableIsWireFormat(v.ty, v.v, order, p + |SigBytes(Print(v.ty))|, k, depth + 1);
      } else {
        ScalarShift(c, v, order, p, k, j);
      }
    case Struct(fs) =>
      AlignShift(p, k, j, 8);
      AllStableAreWireFormat(Each(fs), v.vs, order, AlignUp(p, 8), k, depth + 1);
    case _ =>
      var e := ElemType(t);
      DataStartShift(e, p, k, j);
      var m := DataStart4(e, p + 4 * k);
      AllStableAreWireFormat(Every(e), v.vs, order, 0, m, depth + 1);
  }

  function Halved(k: int): int
  {
    k / 2
  }

  lemma InStepHalved(p: nat, k: int)
    requires p + 4 * k >= 0
    ensures InStep(p + 4 * k, p) <==> k == 2 * Halved(k)
  {
    assert (p + 4 * k) - p == 4 * k;
    var j := Halved(k);
    if k == 2 * j {
      assert 4 * k == 8 * j;
    } else {
      assert 4 * k == 8 * j + 4;
    }
  }

  lemma DataStart4(e: Ty, q: nat) returns (m: nat)
    ensures DataStart(e, q) == 4 * m
  {
    var n := (q + 3) / 4 + 1;
    assert AlignUp(q, 4) + 4 == 4 * n;
    m := Aligned4(n, Alignment(e));
  }

  lemma Aligned4(n: nat, a: nat) returns (m: nat)
    requires a == 1 || a == 2 || a == 4 || a == 8
    ensures AlignUp(4 * n, a) == 4 * m
  {
    m := n;
    if a == 8 {
      m := 2 * ((4 * n + 7) / 8);
    } else if a == 4 {
      assert (4 * n + 3) / 4 == n;
    } else if a == 2 {
      assert (4 * n + 1) / 2 == 2 * n;
    }
  }

  lemma {:induction false} AllStableAreWireFormat(row: Row, vs: seq<Value>, order: Order, p: nat, k: int, depth: nat)
    requires HaveTypes(vs, row) && p + 4 * k >= 0
    requires AllEncodable(row, vs, depth) && AllStable(row, vs, order, p + 4 * k, p)
    ensures EncAll(row, vs, order, p, depth) == Out(MarshalAll(row, vs, order, p + 4 * k), true)
    decreases vs, 1
  {
    hide Enc, Marshal, Encodable, Stable;
    if vs == [] {
    } else {
      StableIsWireFormat(row.Head(), vs[0], order, p, k, depth);
      var n := |Marshal(row.Head(), vs[0], order, p + 4 * k)|;
      assert (p + 4 * k) + n == (p + n) + 4 * k;
      AllStableAreWireFormat(row.Tail(), vs[1..], order, p + n, k, depth);
    }
  }

  /** No array of elements aligned below 8 has an 8-aligned piece inside its elements. */
  predicate AlignStable(t: Ty, v: Value)
    requires HasType(v, t)
    decreases v, 0
  {
    match t
    case Basic(c) => c == 'v' ==> AlignStable(v.ty, v.v)
    case Struct(fs) => AllAlignStable(Each(fs), v.vs)
    case _ =>
      var e := ElemType(t);
      (Alignment(e) == 8 || !AnyHas8(Every(e), v.vs)) && AllAlignStable(Every(e), v.vs)
  }

  predicate AllAlignStable(row: Row, vs: seq<Value>)
    requires HaveTypes(vs, row)
    decreases vs, 1
  {
    vs != [] ==> AlignStable(row.Head(), vs[0]) && AllAlignStable(row.Tail(), vs[1..])
  }

  /** Such values are stable at every position. */
  lemma {:induction false} AlignStableIsStable(t: Ty, v: Value, order: Order, q: nat, p: nat)
    requires HasType(v, t) && AlignStable(t, v) && (InStep(q, p) || !Has8(t, v))
    ensures Stable(t, v, order, q, p)
    decreases v, 0
  {
    hide AlignUp, DataStart;
    match t
    case Basic(c) =>
      if c == 'v' {
        var n := |SigBytes(Print(v.ty))|;
        assert (q + n) - (p + n) == q - p;
        AlignStableIsStable(v.ty, v.v, order, q + n, p + n);
      }
    case Struct(fs) =>
      AlignedInStep(q, p);
      AllAlignStableAreStable(Each(fs), v.vs, order, AlignUp(q, 8), AlignUp(p, 8));
    case _ =>
      var e := ElemType(t);
      DataStartInStep(e, q);
      AllAlignStableAreStable(Every(e), v.vs, order, DataStart(e, q), 0);
  }

  lemma AlignedInStep(q: nat, p: nat)
    ensures InStep(AlignUp(q, 8), AlignUp(p, 8))
  {
    var j := (q + 7) / 8 - (p + 7) / 8;
    assert AlignUp(q, 8) - AlignUp(p, 8) == 8 * j;
  }

  lemma DataStartInStep(e: Ty, q: nat)
    ensures Alignment(e) == 8 ==> InStep(DataStart(e, q), 0)
  {
    AlignedInStep(AlignUp(q, 4) + 4, 0);
  }

  lemma {:induction false} AllAlignStableAreStable(row: Row, vs: seq<Value>, order: Order, q: nat, p: nat)
    requires HaveTypes(vs, row) && AllAlignStable(row, vs) && (InStep(q, p) || !AnyHas8(row, vs))
    ensures AllStable(row, vs, order, q, p)
    decreases vs, 1
  {
    hide Stable, AlignStable, Has8, Marshal;
    if vs == [] {
    } else {
      AlignStableIsStable(row.Head(), vs[0], order, q, p);
      var n := |Marshal(row.Head(), vs[0], order, q)|;
      assert (q + n) - (p + n) == q - p;
      AllAlignStableAreStable(row.Tail(), vs[1..], order, q + n, p + n);
    }
  }

  /**
    The encoder writes every align-stable list of values exactly as a single marshaller that counts
    positions from the start of the message.
   */
  lemma EncoderRefinesMarshaller(row: Row, vs: seq<Value>, order: Order, p: nat)
    requires HaveTypes(vs, row) && AllEncodable(row, vs, 0) && AllAlignStable(row, vs)
    ensures EncAll(row, vs, order, p, 0) == Out(MarshalAll(row, vs, order, p), true)
  {
    AllAlignStableAreStable(row, vs, order, p, p);
    AllStableAreWireFormat(row, vs, order, p, 0, 0);
  }

  /**
    For an array whose elements are right when it starts on a multiple of 8, the restart at 0 is
    harmless exactly if the array does start there or has no 8-aligned piece.
   */
  lemma ArrayIsWireFormatExactly(t: Ty, v: Value, order: Order, p: nat, depth: nat)
    requires IsList(t) && HasType(v, t) && Encodable(t, v, depth)
    requires AllStable(Every(ElemType(t)), v.vs, order, 0, 0)
    ensures Enc(t, v, order, p, depth).written == Marshal(t, v, order, p)
       <==> InStep(DataStart(ElemType(t), p), 0) || !AnyHas8(Every(ElemType(t)), v.vs)
  {
    hide Marshal, Stable, Encodable, AlignUp, DataStart, InStep;
    var e, row := ElemType(t), Every(ElemType(t));
    ListMarshal(t, v, order, p);
    ListEncodable(t, v, depth);
    AllStableAreWireFormat(row, v.vs, order, 0, 0, depth + 1);
    var k := DataStart4(e, p);
    InStepHalved(0, k);
    if k == 2 * Halved(k) || !AnyHas8(row, v.vs) {
      MarshalAllShift(row, v.vs, order, 0, k, Halved(k));
    } else {
      var j := MarshalAllRealigns(row, v.vs, order, 0, k);
      assert k != 2 * j;
    }
  }

  lemma ListMarshal(t: Ty, v: Value, order: Order, p: nat)
    requires IsList(t) && HasType(v, t)
    ensures var e := ElemType(t);
            Marshal(t, v, order, p) == Framed(e, MarshalAll(Every(e), v.vs, order, DataStart(e, p)), order, p)
  {
  }

  lemma ListEncodable(t: Ty, v: Value, depth: nat)
    requires IsList(t) && HasType(v, t) && Encodable(t, v, depth)
    ensures !Refused(t, depth) && AllEncodable(Every(ElemType(t)), v.vs, depth + 1)
  {
  }
}
