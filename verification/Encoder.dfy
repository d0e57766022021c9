/** The encoder (encoder.go), and when it writes the D-Bus wire format. */
module Encoding {
  import opened Bytes
  import opened Signature
  import opened Values

  /** What a call has written, and whether it returned without a panic. */
  datatype Out = Out(written: bytes, ok: bool)
  {
    function After(prefix: bytes): Out
    {
      Out(prefix + written, ok)
    }
  }

  /** The container is nested too deep or has a key type that cannot be sent. */
  predicate Refused(t: Ty, depth: nat)
    requires IsList(t)
  {
    if t.Array? then depth >= MAX_DEPTH else depth >= MAX_DEPTH - 1 || !IsKey(t.key)
  }

  /** encode: elements of arrays and dicts go through a fresh encoder that starts at position 0. */
  function Enc(t: Ty, v: Value, order: Order, p: nat, depth: nat): Out
    requires HasType(v, t)
    decreases v, 0
  {
    match t
    case Basic(c) =>
      if c != 'v' then Out(Scalar(c, v, order, p), true)
      else if depth >= MAX_DEPTH then Out([], false)
      else
        var sig := SigBytes(Print(v.ty));
        Enc(v.ty, v.v, order, p + |sig|, depth + 1).After(sig)
    case Struct(fs) =>
      if depth >= MAX_DEPTH then Out(Pad(p, 8), false)
      else EncAll(Each(fs), v.vs, order, AlignUp(p, 8), depth + 1).After(Pad(p, 8))
    case _ =>
      if Refused(t, depth) then Out(Pad(p, 4), false) else
      var buf := EncAll(Every(ElemType(t)), v.vs, order, 0, depth + 1);
      if buf.ok then Out(Framed(ElemType(t), buf.written, order, p), true) else Out(Pad(p, 4), false)
  }

  function EncAll(row: Row, vs: seq<Value>, order: Order, p: nat, depth: nat): Out
    requires HaveTypes(vs, row)
    decreases vs, 1
  {
    if vs == [] then Out([], true) else
    var b := Enc(row.Head(), vs[0], order, p, depth);
    if !b.ok then b
    else EncAll(row.Tail(), vs[1..], order, p + |b.written|, depth).After(b.written)
  }

  // ---------------------------------------------------------------- the encoder as written

  class Encoder {
    const order: Order
    var out: bytes
    var pos: nat

    constructor (order: Order)
      ensures this.order == order && out == [] && pos == 0
    {
      this.order := order;
      out, pos := [], 0;
    }

    method Write(b: bytes)
      modifies this
      ensures out == old(out) + b && pos == old(pos) + |b|
    {
      out := out + b;
      pos := pos + |b|;
    }

    method Align(n: nat)
      modifies this
      ensures out == old(out) + Pad(old(pos), n) && pos == AlignUp(old(pos), n)
    {
      var newpos := AlignUp(pos, n);
      out := out + Zeros(newpos - pos);
      pos := newpos;
    }

    method EncodeUint32(n: nat)
      modifies this
      ensures out == old(out) + (Pad(old(pos), 4) + U32(order, n))
      ensures pos == old(pos) + |Pad(old(pos), 4) + U32(order, n)|
    {
      Align(4);
      Write(U32(order, n));
      Assoc(old(out), Pad(old(pos), 4), U32(order, n));
    }

    method EncodeSignature(s: bytes)
      modifies this
      ensures out == old(out) + SigBytes(s) && pos == old(pos) + |SigBytes(s)|
    {
      Write([ToByte(|s|)]);
      Write(s + ['\0']);
      assert SigBytes(s) == [ToByte(|s|)] + (s + ['\0']);
      Assoc(old(out), [ToByte(|s|)], s + ['\0']);
    }

    /** A basic value behind the padding that encode starts with. */
    method EncodeScalar(c: byte, v: Value)
      requires HasType(v, Basic(c)) && c != 'v' && AlignUp(pos, LetterAlignment(c)) == pos
      modifies this
      ensures out == old(out) + Scalar(c, v, order, old(pos))
      ensures pos == old(pos) + |Scalar(c, v, order, old(pos))|
    {
      if c == 'b' {
        EncodeUint32(if v.b then 1 else 0);
      } else if c == 's' || c == 'o' {
        EncodeUint32(|v.s|);
        Write(v.s + ['\0']);
        Assoc(old(out), Pad(old(pos), 4) + U32(order, |v.s|), v.s + ['\0']);
        Assoc(Pad(old(pos), 4), U32(order, |v.s|), v.s + ['\0']);
      } else if c == 'g' {
        EncodeSignature(v.s);
      } else {
        Write(Put(order, ToBits(c, v.n), Size(c)));
        assert Scalar(c, v, order, old(pos)) == Put(order, ToBits(c, v.n), Size(c));
      }
    }

    /** Writes v, or as much of it as precedes the panic; the position always counts the bytes written. */
    method Encode(t: Ty, v: Value, depth: nat) returns (ok: bool)
      requires HasType(v, t)
      modifies this
      ensures Wrote(Enc(t, v, order, old(pos), depth), ok)
      decreases v, 1
    {
      hide AlignUp, Scalar, Enc;
      AlignedFirst(t, v, order, pos, depth);
      Align(Alignment(t));
      ghost var q := pos;
      if t.Basic? && t.c != 'v' {
        EncodeScalar(t.c, v);
        ScalarEnc(t.c, v, order, q, depth);
        ok := true;
      } else if t.Basic? {
        ok := EncodeVariant(v, depth);
      } else if t.Struct? {
        ok := EncodeStruct(t, v, depth);
      } else {
        ok := EncodeList(t, v, depth);
      }
      Assoc(old(out), Pad(old(pos), Alignment(t)), Enc(t, v, order, q, depth).written);
    }

    method EncodeStruct(t: Ty, v: Value, depth: nat) returns (ok: bool)
      requires t.Struct? && HasType(v, t) && AlignUp(pos, 8) == pos
      modifies this
      ensures Wrote(Enc(t, v, order, old(pos), depth), ok)
      decreases v, 0
    {
      if depth >= MAX_DEPTH {
        return false;
      }
      ok := EncodeAll(Each(t.fields), v.vs, depth + 1);
      assert Pad(old(pos), 8) + EncAll(Each(t.fields), v.vs, order, old(pos), depth + 1).written
          == EncAll(Each(t.fields), v.vs, order, old(pos), depth + 1).written;
    }

    method EncodeList(t: Ty, v: Value, depth: nat) returns (ok: bool)
      requires IsList(t) && HasType(v, t) && AlignUp(pos, 4) == pos
      modifies this
      ensures Wrote(Enc(t, v, order, old(pos), depth), ok)
      decreases v, 0
    {
      hide AlignUp, Enc, EncAll, Framed;
      AlignedTwice(pos, 4);
      ListEnc(t, v, order, pos, depth);
      if Refused(t, depth) {
        return false;
      }
      var bufenc := new Encoder(order);
      if t.Array? {
        ok := bufenc.EncodeAll(Every(t.elem), v.vs, depth + 1);
      } else {
        ok := bufenc.EncodeEntries(t, v.vs, depth);
      }
      ghost var buf := EncAll(Every(ElemType(t)), v.vs, order, 0, depth + 1);
      assert [] + buf.written == buf.written;
      if ok {
        EncodeUint32(|bufenc.out|);
        Align(Alignment(ElemType(t)));
        Write(bufenc.out);
        FramedParts(ElemType(t), bufenc.out, order, old(pos), old(out));
      }
    }

    /** out and pos have moved by what was written. */
    twostate predicate Wrote(e: Out, ok: bool)
      reads this
    {
      ok == e.ok && out == old(out) + e.written && pos == old(pos) + |e.written|
    }

    method EncodeVariant(v: Value, depth: nat) returns (ok: bool)
      requires v.Variant? && HasType(v, Basic('v'))
      modifies this
      ensures Wrote(Enc(Basic('v'), v, order, old(pos), depth), ok)
      decreases v, 0
    {
      if depth >= MAX_DEPTH {
        return false;
      }
      EncodeSignature(Print(v.ty));
      ok := Encode(v.ty, v.v, depth + 1);
      var sig := SigBytes(Print(v.ty));
      Assoc(old(out), sig, Enc(v.ty, v.v, order, old(pos) + |sig|, depth + 1).written);
    }

    /** The fields of a struct or the elements of an array, one after the other. */
    method EncodeAll(row: Row, vs: seq<Value>, depth: nat) returns (ok: bool)
      requires HaveTypes(vs, row)
      modifies this
      ensures Wrote(EncAll(row, vs, order, old(pos), depth), ok)
      decreases vs, 2
    {
      hide Enc;
      var i, rest := 0, row;
      ghost var done: bytes := [];
      while i < |vs|
        invariant i <= |vs| && HaveTypes(vs[i..], rest)
        invariant out == old(out) + done && pos == old(pos) + |done|
        invariant EncAll(row, vs, order, old(pos), depth) == EncAll(rest, vs[i..], order, pos, depth).After(done)
      {
        done := LoopStep(old(out), done, rest, vs[i..], order, pos, depth);
        ok := Encode(rest.Head(), vs[i], depth);
        if !ok {
          return;
        }
        i, rest := i + 1, rest.Tail();
      }
      ok := true;
    }

    /** The entries of a map in the order MapKeys gives them. */
    method EncodeEntries(t: Ty, es: seq<Value>, depth: nat) returns (ok: bool)
      requires t.Dict? && HaveTypes(es, Every(ElemType(t))) && depth < MAX_DEPTH - 1
      modifies this
      ensures Wrote(EncAll(Every(ElemType(t)), es, order, old(pos), depth + 1), ok)
      decreases es, 2
    {
      hide Enc;
      var i, row := 0, Every(ElemType(t));
      ghost var done: bytes := [];
      while i < |es|
        invariant i <= |es| && HaveTypes(es[i..], row)
        invariant out == old(out) + done && pos == old(pos) + |done|
        invariant EncAll(row, es, order, old(pos), depth + 1) == EncAll(row, es[i..], order, pos, depth + 1).After(done)
      {
        done := LoopStep(old(out), done, row, es[i..], order, pos, depth + 1);
        ok := EncodeEntry(t, es[i], depth);
        if !ok {
          return;
        }
        i := i + 1;
      }
      ok := true;
    }

    method EncodeEntry(t: Ty, e: Value, depth: nat) returns (ok: bool)
      requires t.Dict? && HasType(e, ElemType(t)) && depth < MAX_DEPTH - 1
      modifies this
      ensures Wrote(Enc(ElemType(t), e, order, old(pos), depth + 1), ok)
      decreases e, 0
    {
      hide AlignUp;
      EntryTyped(t, e);
      Align(8);
      ok := Encode(Basic(t.key), e.vs[0], depth + 2);
      if ok {
        ok := Encode(t.val, e.vs[1], depth + 2);
      }
      EntryParts(t, e, order, old(pos), depth, old(out));
    }
  }

  /** One more element: what is written so far and what remains make up the same whole. */
  lemma LoopStep(before: bytes, done: bytes, row: Row, vs: seq<Value>, order: Order, p: nat, depth: nat)
    returns (next: bytes)
    requires vs != [] && HaveTypes(vs, row)
    ensures var b := Enc(row.Head(), vs[0], order, p, depth);
            && next == done + b.written
            && (before + done) + b.written == before + next
            && |next| == |done| + |b.written|
            && EncAll(row, vs, order, p, depth).After(done)
               == if b.ok then EncAll(row.Tail(), vs[1..], order, p + |b.written|, depth).After(next)
                  else Out(next, false)
  {
    hide Enc;
    var b := Enc(row.Head(), vs[0], order, p, depth);
    next := done + b.written;
    Assoc(before, done, b.written);
    if b.ok {
      Assoc(done, b.written, EncAll(row.Tail(), vs[1..], order, p + |b.written|, depth).written);
    }
  }

  predicate IsEntryOf(t: Ty, e: Value)
  {
    t.Dict? && IsEntry(e) && HasType(e.vs[0], Basic(t.key)) && HasType(e.vs[1], t.val)
  }

  lemma EntryTyped(t: Ty, e: Value)
    requires t.Dict? && HasType(e, ElemType(t))
    ensures IsEntryOf(t, e)
  {
    var row := Each([Basic(t.key), t.val]);
    assert HaveTypes(e.vs[1..], row.Tail()) && row.Tail().Head() == t.val;
  }

  lemma EntryParts(t: Ty, e: Value, order: Order, p: nat, depth: nat, before: bytes)
    requires IsEntryOf(t, e) && HasType(e, ElemType(t)) && depth < MAX_DEPTH - 1
    ensures var q := AlignUp(p, 8);
            var k := Enc(Basic(t.key), e.vs[0], order, q, depth + 2);
            var v := Enc(t.val, e.vs[1], order, q + |k.written|, depth + 2);
            var whole := Enc(ElemType(t), e, order, p, depth + 1);
            && whole.ok == (k.ok && v.ok)
            && before + whole.written
               == (if k.ok then ((before + Pad(p, 8)) + k.written) + v.written
                   else (before + Pad(p, 8)) + k.written)
            && |whole.written| == |Pad(p, 8)| + |k.written| + (if k.ok then |v.written| else 0)
  {
    var row, q := Each([Basic(t.key), t.val]), AlignUp(p, 8);
    var k := Enc(Basic(t.key), e.vs[0], order, q, depth + 2);
    var v := Enc(t.val, e.vs[1], order, q + |k.written|, depth + 2);
    assert Enc(ElemType(t), e, order, p, depth + 1)
        == EncAll(row, e.vs, order, q, depth + 2).After(Pad(p, 8));
    assert row.Tail().Head() == t.val && e.vs[1..][0] == e.vs[1] && e.vs[1..][1..] == [];
    assert EncAll(row.Tail(), e.vs[1..], order, q + |k.written|, depth + 2)
        == if v.ok then Out(v.written + [], true) else v;
    assert v.written + [] == v.written;
    Assoc(before, Pad(p, 8), k.written);
    Assoc(before + Pad(p, 8), k.written, v.written);
    Assoc(before, Pad(p, 8), k.written + v.written);
  }

  lemma ListEnc(t: Ty, v: Value, order: Order, p: nat, depth: nat)
    requires IsList(t) && HasType(v, t) && AlignUp(p, 4) == p
    ensures var buf := EncAll(Every(ElemType(t)), v.vs, order, 0, depth + 1);
            Enc(t, v, order, p, depth) == if Refused(t, depth) || !buf.ok then Out([], false)
                                          else Out(Framed(ElemType(t), buf.written, order, p), true)
  {
    hide AlignUp, EncAll, Framed;
    AlignedTwice(p, 4);
  }

  lemma ScalarEnc(c: byte, v: Value, order: Order, p: nat, depth: nat)
    requires HasType(v, Basic(c)) && c != 'v'
    ensures Enc(Basic(c), v, order, p, depth) == Out(Scalar(c, v, order, p), true)
  {
  }

  /** Aligning first, as encode does for every value, changes nothing. */
  lemma AlignedFirst(t: Ty, v: Value, order: Order, p: nat, depth: nat)
    requires HasType(v, t)
    ensures var q := AlignUp(p, Alignment(t));
            && AlignUp(q, Alignment(t)) == q
            && Enc(t, v, order, p, depth) == Enc(t, v, order, q, depth).After(Pad(p, Alignment(t)))
  {
    hide AlignUp, EncAll, Scalar, Framed;
    AlignedTwice(p, Alignment(t));
    if t.Basic? {
      if t.c != 'v' {
        AlignedScalar(t.c, v, order, p);
      }
    } else if IsList(t) {
      AlignedTwice(p, 4);
      hide Enc;
      AlignedList(t, v, order, p, depth);
    }
  }

  lemma AlignedList(t: Ty, v: Value, order: Order, p: nat, depth: nat)
    requires IsList(t) && HasType(v, t) && AlignUp(AlignUp(p, 4), 4) == AlignUp(p, 4)
    ensures Enc(t, v, order, p, depth) == Enc(t, v, order, AlignUp(p, 4), depth).After(Pad(p, 4))
  {
    hide AlignUp, EncAll;
    ListEnc(t, v, order, AlignUp(p, 4), depth);
  }

  lemma AlignedScalar(c: byte, v: Value, order: Order, p: nat)
    requires HasType(v, Basic(c)) && c != 'v'
    ensures var a := LetterAlignment(c);
            Scalar(c, v, order, p) == Pad(p, a) + Scalar(c, v, order, AlignUp(p, a))
  {
    hide AlignUp;
    if c == 'b' || c == 'g' {
      AlignedTwice(p, 1);
    } else if c == 's' || c == 'o' {
      AlignedTwice(p, 4);
      var text := U32(order, |v.s|) + (v.s + ['\0']);
      assert [] + text == text;
    } else {
      AlignedTwice(p, Size(c));
      var bits := Put(order, ToBits(c, v.n), Size(c));
      assert [] + bits == bits;
    }
  }

  lemma AlignedTwice(p: nat, n: nat)
    ensures AlignUp(AlignUp(p, n), n) == AlignUp(p, n) && Pad(AlignUp(p, n), n) == []
    ensures n == 1 ==> AlignUp(p, n) == p && Pad(p, n) == []
  {
    if n == 2 {
      var k := (p + 1) / 2;
      assert (2 * k + 1) / 2 == k;
    } else if n == 4 {
      var k := (p + 3) / 4;
      assert (4 * k + 3) / 4 == k;
    } else if n == 8 {
      var k := (p + 7) / 8;
      assert (8 * k + 7) / 8 == k;
    }
  }

  lemma FramedParts(e: Ty, body: bytes, order: Order, p: nat, before: bytes)
    ensures ((before + (Pad(p, 4) + U32(order, |body|))) + Pad(AlignUp(p, 4) + 4, Alignment(e))) + body
         == before + Framed(e, body, order, p)
  {
    var a, b, c := Pad(p, 4), U32(order, |body|), Pad(AlignUp(p, 4) + 4, Alignment(e));
    Assoc(before + (a + b), c, body);
    Assoc(before, a + b, c + body);
    Assoc(a, b, c + body);
  }
}
