/** When decoding moves on, and when it never ends. */
module Progress {
  import opened Bytes
  import opened Signature
  import opened Values
  import opened Encoding
  import opened Decoding

  /** A complete type that takes no bytes: structs of structs of nothing. */
  predicate Hollow(s: bytes)
  {
    forall i :: 0 <= i < |s| ==> s[i] == '(' || s[i] == ')'
  }

  lemma HollowConcat(a: bytes, b: bytes)
    ensures Hollow(a + b) <==> Hollow(a) && Hollow(b)
  {
    forall i | 0 <= i < |a| + |b|
      ensures (a + b)[i] == if i < |a| then a[i] else b[i - |a|]
    {
    }
    if Hollow(a + b) {
      forall i | 0 <= i < |b|
        ensures b[i] == '(' || b[i] == ')'
      {
        assert (a + b)[|a| + i] == b[i];
      }
    }
  }

  /** A struct is hollow exactly when its fields are; a field list when all its parts are. */
  lemma HollowFields(s: bytes)
    requires Exact(s) && s[0] == '('
    ensures Hollow(s) <==> Hollow(FieldSigs(s))
  {
    var fs := FieldSigs(s);
    var i := FieldsOf(s, 0);
    assert s == (['('] + fs) + [')'];
    HollowConcat(['('] + fs, [')']);
    HollowConcat(['('], fs);
  }

  lemma HollowHead(s: bytes)
    requires ScanOne(s, 0).Rem?
    ensures Hollow(s) <==> Hollow(HeadSig(s)) && Hollow(ScanOne(s, 0).rem)
  {
    hide Hollow, ScanOne, HeadSig;
    var h, rem := HeadSig(s), ScanOne(s, 0).rem;
    assert s == h + rem;
    HollowConcat(h, rem);
  }

  /**
    A complete type that decodes takes at least one byte, except a hollow one from a multiple of 8:
    that takes none.
   */
  lemma {:induction false} DecodeMovesExactly(s: bytes, order: Order, inp: bytes, p: nat, depth: nat)
    requires Exact(s)
    ensures var r := DecodeOne(s, order, inp, p, depth);
            r.Got? ==> (r.pos == p <==> Hollow(s) && AlignUp(p, 8) == p)
    decreases |s|, 0
  {
    hide DecodeOne, DecodeFields, AlignUp, FieldSigs;
    Letter(s, 0);
    if IsBasic(s[0]) {
      BasicMoves(s, order, inp, p, depth);
    } else if s[0] == 'a' {
      ArrayMoves(s, order, inp, p, depth);
    } else {
      HollowFields(s);
      AlignedTwice(p, 8);
      var a, vs := StructParts(s, order, inp, p, depth);
      if a.Got? && vs.Got? {
        FieldsMoveExactly(FieldSigs(s), order, a.rest, a.pos, depth + 1, []);
      }
    }
  }

  lemma BasicMoves(s: bytes, order: Order, inp: bytes, p: nat, depth: nat)
    requires Exact(s) && IsBasic(s[0])
    ensures var r := DecodeOne(s, order, inp, p, depth); r.Got? ==> r.pos > p && !Hollow(s)
  {
    hide DecodeOne, ScanOne;
    assert s[0] != '(' && s[0] != ')';
  }

  /** A struct is padding to 8 and then its fields. */
  lemma StructParts(s: bytes, order: Order, inp: bytes, p: nat, depth: nat)
    returns (a: Dec<bytes>, vs: Dec<seq<Value>>)
    requires Exact(s) && s[0] == '('
    ensures a.Got? ==> a.pos == AlignUp(p, 8)
    ensures a.Got? && vs.Got? ==> vs == DecodeFields(FieldSigs(s), order, a.rest, a.pos, depth + 1, [])
    ensures var r := DecodeOne(s, order, inp, p, depth);
            r.Got? ==> a.Got? && vs.Got? && r.pos == vs.pos
  {
    hide DecodeFields, AlignUp, ScanOne, FieldSigs;
    a := Skip(inp, p, 8);
    vs := if a.Got? then DecodeFields(FieldSigs(s), order, a.rest, a.pos, depth + 1, []) else a.Without();
  }

  lemma ArrayMoves(s: bytes, order: Order, inp: bytes, p: nat, depth: nat)
    requires Exact(s) && s[0] == 'a'
    ensures var r := DecodeOne(s, order, inp, p, depth); r.Got? ==> r.pos > p && !Hollow(s)
  {
    hide AlignUp, DecodeElems, DecodeEntries, ScanOne, DictSig, ElemSig, DecU32, Skip, Get;
    assert s[0] != '(' && s[0] != ')';
  }

  lemma {:induction false} FieldsMoveExactly(s: bytes, order: Order, inp: bytes, p: nat, depth: nat, acc: seq<Value>)
    ensures var r := DecodeFields(s, order, inp, p, depth, acc);
            r.Got? && AlignUp(p, 8) == p ==> (r.pos == p <==> Hollow(s))
    ensures var r := DecodeFields(s, order, inp, p, depth, acc);
            r.Got? && s != [] && r.pos == p ==> AlignUp(p, 8) == p
    decreases |s|, 1
  {
    hide AlignUp, DecodeOne, HeadSig, ScanOne;
    if s == [] || ScanOne(s, 0).Bad? {
    } else {
      var rem, h := ScanOne(s, 0).rem, HeadSig(s);
      var v := DecodeOne(h, order, inp, p, depth);
      HollowHead(s);
      DecodeMovesExactly(h, order, inp, p, depth);
      if v.Got? {
        FieldsMoveExactly(rem, order, v.rest, v.pos, depth, acc + [v.v]);
      }
    }
  }

  // ---------------------------------------------------------------- the signatures that are read

  /** The signatures of the variants that are read while a value of the type s is decoded. */
  function SigsOne(s: bytes, order: Order, inp: bytes, p: nat, depth: nat): set<bytes>
    requires Exact(s)
    decreases |inp|, |s|, 3
  {
    var a := Skip(inp, p, LetterAlignment(s[0]));
    if !a.Got? then {}
    else if s[0] == 'v' then SigsVariant(order, a.rest, a.pos, depth)
    else if IsBasic(s[0]) then {}
    else if s[0] == 'a' && |s| > 1 && s[1] == '{' then SigsDict(s, order, a.rest, a.pos, depth)
    else if s[0] == 'a' then SigsArray(s, order, a.rest, a.pos, depth)
    else
      Letter(s, 0);
      SigsStruct(s, order, a.rest, a.pos, depth)
  }

  function SigsVariant(order: Order, inp: bytes, p: nat, depth: nat): set<bytes>
    decreases |inp|, 0, 2
  {
    var sig := DecVariantSignature(inp, p);
    if depth >= MAX_DEPTH || !sig.Got? then {}
    else {sig.v} + SigsOne(sig.v, order, sig.rest, sig.pos, depth + 1)
  }

  function SigsDict(s: bytes, order: Order, inp: bytes, p: nat, depth: nat): set<bytes>
    requires Exact(s) && |s| > 1 && s[0] == 'a' && s[1] == '{'
    decreases |inp|, |s|, 2
  {
    var kv, n := DictSig(s), DecU32(order, inp, p);
    if depth >= MAX_DEPTH - 1 || !n.Got? then {}
    else
      var b := Skip(n.rest, n.pos, 8);
      if !b.Got? then {} else SigsEntries(kv[..1], kv[1..], order, b.rest, b.pos, b.pos + n.v, depth + 2)
  }

  function SigsArray(s: bytes, order: Order, inp: bytes, p: nat, depth: nat): set<bytes>
    requires Exact(s) && s[0] == 'a' && !(|s| > 1 && s[1] == '{')
    decreases |inp|, |s|, 2
  {
    var e, n := ElemSig(s), DecU32(order, inp, p);
    if depth >= MAX_DEPTH || !n.Got? then {}
    else
      var b := Skip(n.rest, n.pos, LetterAlignment(e[0]));
      if !b.Got? then {} else SigsElems(e, order, b.rest, b.pos, b.pos + n.v, depth + 1)
  }

  function SigsStruct(s: bytes, order: Order, inp: bytes, p: nat, depth: nat): set<bytes>
    requires Exact(s) && s[0] == '('
    decreases |inp|, |s|, 2
  {
    if depth >= MAX_DEPTH then {} else SigsFields(FieldSigs(s), order, inp, p, depth + 1)
  }

  function SigsFields(s: bytes, order: Order, inp: bytes, p: nat, depth: nat): set<bytes>
    decreases |inp|, |s|, 4
  {
    if s == [] || ScanOne(s, 0).Bad? then {}
    else
      var v := DecodeOne(HeadSig(s), order, inp, p, depth);
      SigsOne(HeadSig(s), order, inp, p, depth)
      + if v.Got? then SigsFields(ScanOne(s, 0).rem, order, v.rest, v.pos, depth) else {}
  }

  function SigsElems(e: bytes, order: Order, inp: bytes, p: nat, end: nat, depth: nat): set<bytes>
    requires Exact(e)
    decreases |inp|, |e|, 4
  {
    if p >= end then {}
    else
      var v := DecodeOne(e, order, inp, p, depth);
      SigsOne(e, order, inp, p, depth)
      + if v.Got? && v.pos != p then SigsElems(e, order, v.rest, v.pos, end, depth) else {}
  }

  function SigsEntries(k: bytes, e: bytes, order: Order, inp: bytes, p: nat, end: nat, depth: nat): set<bytes>
    requires Exact(k) && |k| == 1 && IsBasic(k[0]) && Exact(e)
    decreases |inp|, |e|, 4
  {
    var a := Skip(inp, p, 8);
    if p >= end || !a.Got? || !IsKey(k[0]) then {}
    else
      var kv := DecodeOne(k, order, a.rest, a.pos, depth);
      if !kv.Got? then SigsOne(k, order, a.rest, a.pos, depth)
      else
        var vv := DecodeOne(e, order, kv.rest, kv.pos, depth);
        SigsOne(k, order, a.rest, a.pos, depth) + SigsOne(e, order, kv.rest, kv.pos, depth)
        + if vv.Got? then SigsEntries(k, e, order, vv.rest, vv.pos, end, depth) else {}
  }

  // ---------------------------------------------------------------- where decoding can go on forever

  ghost predicate Part(t: bytes, s: bytes)
  {
    exists a, b :: s == a + t + b
  }

  ghost predicate Tail(t: bytes, s: bytes)
  {
    exists a :: s == a + t
  }

  lemma TailOfTail(r: bytes, t: bytes, s: bytes)
    requires Tail(r, t) && Tail(t, s)
    ensures Tail(r, s)
  {
    var a :| t == a + r;
    var c :| s == c + t;
    assert s == (c + a) + r;
  }

  lemma TailIsPart(t: bytes, s: bytes)
    requires Tail(t, s)
    ensures Part(t, s)
  {
    var a :| s == a + t;
    assert s == a + t + [];
  }

  lemma PartOf(t: bytes, s: bytes, i: nat)
    requires i + |t| <= |s| && s[i..i + |t|] == t
    ensures Part(t, s)
  {
    assert s == s[..i] + t + s[i + |t|..];
  }

  lemma PartOfPart(r: bytes, t: bytes, s: bytes)
    requires Part(r, t) && Part(t, s)
    ensures Part(r, s)
  {
    var a, b :| t == a + r + b;
    var c, d :| s == c + t + d;
    assert s == (c + a) + r + (b + d);
  }

  /**
    What is decoded ends where inp ends; the signatures read stand in inp; and an endless loop is one
    over hollow elements, whose type is part of the type s or of a signature read.
   */
  ghost predicate Traced<T>(r: Dec<T>, sigs: set<bytes>, s: bytes, inp: bytes)
  {
    && (r.Got? ==> Tail(r.rest, inp))
    && (forall g :: g in sigs ==> Part(g, inp))
    && (r.Stuck? ==> Hollow(r.elem) && Exact(r.elem) && Named(r.elem, sigs, s))
  }

  ghost predicate Named(e: bytes, sigs: set<bytes>, s: bytes)
  {
    Part(e, s) || exists g :: g in sigs && Part(e, g)
  }

  /** The same for a type that t is part of, further input in front, and more signatures read. */
  lemma Widened<T>(r: Dec<T>, sigs: set<bytes>, t: bytes, mid: bytes, more: set<bytes>, s: bytes, inp: bytes)
    requires Traced(r, sigs, t, mid) && Part(t, s) && Tail(mid, inp)
    requires forall g :: g in more ==> Part(g, inp)
    ensures Traced(r, sigs + more, s, inp)
  {
    hide Part, Tail, Hollow, Exact;
    TailIsPart(mid, inp);
    if r.Got? {
      TailOfTail(r.rest, mid, inp);
    }
    forall g | g in sigs
      ensures Part(g, inp)
    {
      PartOfPart(g, mid, inp);
    }
    if r.Stuck? && Part(r.elem, t) {
      PartOfPart(r.elem, t, s);
    }
  }

  lemma Same<T, U>(r: Dec<T>, q: Dec<U>, sigs: set<bytes>, s: bytes, inp: bytes)
    requires Traced(r, sigs, s, inp) && (if r.Got? then q.Got? && q.rest == r.rest else q == r.Without())
    ensures Traced(q, sigs, s, inp)
  {
  }

  lemma TakeParts(inp: bytes, p: nat, n: nat)
    ensures var r := Take(inp, p, n); r.Got? ==> Part(r.v, inp) && Tail(r.rest, inp)
  {
    if n <= |inp| {
      PartOf(inp[..n], inp, 0);
      assert inp == inp[..n] + inp[n..];
    }
  }

  lemma SkipParts(inp: bytes, p: nat, n: nat)
    ensures var r := Skip(inp, p, n); r.Got? ==> Tail(r.rest, inp)
  {
    hide AlignUp, Part, Tail;
    TakeParts(inp, p, AlignUp(p, n) - p);
  }

  lemma U32Parts(order: Order, inp: bytes, p: nat)
    ensures var r := DecU32(order, inp, p); r.Got? ==> Tail(r.rest, inp)
  {
    hide Part, Tail, Skip, Take, Get;
    SkipParts(inp, p, 4);
    var a := Skip(inp, p, 4);
    if a.Got? {
      TakeParts(a.rest, a.pos, 4);
      var b := Take(a.rest, a.pos, 4);
      if b.Got? {
        TailOfTail(b.rest, a.rest, inp);
      }
    }
  }

  lemma TextParts(n: nat, inp: bytes, p: nat)
    ensures var r := DecText(n, inp, p); r.Got? ==> Part(r.v, inp) && Tail(r.rest, inp)
  {
    hide Part, Tail;
    TakeParts(inp, p, n + 1);
    if n + 1 <= |inp| {
      PartOf(inp[..n], inp, 0);
      assert inp[..n + 1][..n] == inp[..n];
    }
  }

  lemma SignatureParts(inp: bytes, p: nat)
    ensures var r := DecSignature(inp, p); r.Got? ==> Part(r.v, inp) && Tail(r.rest, inp)
  {
    hide Part, Tail, Take, DecText, ScanList;
    TakeParts(inp, p, 1);
    var n := Take(inp, p, 1);
    if n.Got? {
      assert |n.v| == 1 by { OneByte(inp, p); }
      TextParts(n.v[0] as int, n.rest, n.pos);
      var s := DecText(n.v[0] as int, n.rest, n.pos);
      if s.Got? {
        TailIsPart(n.rest, inp);
        PartOfPart(s.v, n.rest, inp);
        TailOfTail(s.rest, n.rest, inp);
      }
    }
  }

  lemma OneByte(inp: bytes, p: nat)
    ensures var n := Take(inp, p, 1); n.Got? ==> |n.v| == 1
  {
  }

  lemma VariantSignatureParts(inp: bytes, p: nat)
    ensures var r := DecVariantSignature(inp, p); r.Got? ==> Part(r.v, inp) && Tail(r.rest, inp)
  {
    hide Part, Tail, DecSignature, ScanOne;
    SignatureParts(inp, p);
  }

  lemma ScalarParts(c: byte, order: Order, inp: bytes, p: nat)
    requires IsBasic(c) && c != 'v'
    ensures var r := DecScalar(c, order, inp, p); r.Got? ==> Tail(r.rest, inp)
  {
    hide Part, Tail, DecU32, DecSignature, DecText, Take, Get, FromBits;
    U32Parts(order, inp, p);
    SignatureParts(inp, p);
    TakeParts(inp, p, Size(c));
    var n := DecU32(order, inp, p);
    if n.Got? {
      TextParts(n.v, n.rest, n.pos);
      var s := DecText(n.v, n.rest, n.pos);
      if s.Got? {
        TailOfTail(s.rest, n.rest, inp);
      }
    }
  }

  /** Whatever is decoded, every part of it is traced. */
  lemma {:induction false} TraceOne(s: bytes, order: Order, inp: bytes, p: nat, depth: nat)
    requires Exact(s)
    ensures Traced(DecodeOne(s, order, inp, p, depth), SigsOne(s, order, inp, p, depth), s, inp)
    decreases |inp|, |s|, 3
  {
    hide DecodeVariant, DecodeArray, DecodeDict, DecodeStruct, DecScalar, Skip, ScanOne, Part, Tail, Hollow, Traced;
    hide SigsVariant, SigsArray, SigsDict, SigsStruct;
    Letter(s, 0);
    var a := Skip(inp, p, LetterAlignment(s[0]));
    var r := DecodeOne(s, order, inp, p, depth);
    SkipParts(inp, p, LetterAlignment(s[0]));
    WholePart(s);
    if !a.Got? {
      assert Traced(r, {}, s, inp) by { PlainlyTraced(r, s, inp); }
    } else {
      if s[0] == 'v' {
        TraceVariant(s, order, a.rest, a.pos, depth);
      } else if IsBasic(s[0]) {
        ScalarParts(s[0], order, a.rest, a.pos);
        PlainlyTraced(r, s, a.rest);
      } else if s[0] == 'a' {
        TraceList(s, order, a.rest, a.pos, depth);
      } else {
        TraceStruct(s, order, a.rest, a.pos, depth);
      }
      var sigs := SigsOne(s, order, inp, p, depth);
      Widened(r, sigs, s, a.rest, {}, s, inp);
      assert sigs + {} == sigs;
    }
  }

  lemma WholePart(s: bytes)
    ensures Part(s, s) && Tail(s, s)
  {
    assert s == [] + s + [];
    assert s == [] + s;
  }

  lemma PlainlyTraced<T>(r: Dec<T>, s: bytes, inp: bytes)
    requires !r.Stuck? && (r.Got? ==> Tail(r.rest, inp))
    ensures Traced(r, {}, s, inp)
  {
  }

  lemma {:induction false} TraceVariant(s: bytes, order: Order, inp: bytes, p: nat, depth: nat)
    ensures Traced(DecodeVariant(order, inp, p, depth), SigsVariant(order, inp, p, depth), s, inp)
    decreases |inp|, 0, 2
  {
    hide DecodeOne, SigsOne, DecVariantSignature, ScanOne, TypeFor, Part, Tail, Hollow, Traced;
    var sig := DecVariantSignature(inp, p);
    var r := DecodeVariant(order, inp, p, depth);
    VariantSignatureParts(inp, p);
    if depth >= MAX_DEPTH || !sig.Got? {
      PlainlyTraced(r, s, inp);
    } else {
      var v := DecodeOne(sig.v, order, sig.rest, sig.pos, depth + 1);
      var sigs := SigsOne(sig.v, order, sig.rest, sig.pos, depth + 1);
      TraceOne(sig.v, order, sig.rest, sig.pos, depth + 1);
      WholePart(sig.v);
      Widened(v, sigs, sig.v, sig.rest, {sig.v}, sig.v, inp);
      Same(v, r, sigs + {sig.v}, sig.v, inp);
      assert {sig.v} + sigs == sigs + {sig.v};
      ReadType(r, sigs + {sig.v}, sig.v, s, inp);
    }
  }

  /** A type that is itself among the signatures read. */
  lemma ReadType<T>(r: Dec<T>, sigs: set<bytes>, g: bytes, s: bytes, inp: bytes)
    requires Traced(r, sigs, g, inp) && g in sigs
    ensures Traced(r, sigs, s, inp)
  {
    hide Part, Tail, Hollow, Exact;
  }

  lemma {:induction false} TraceStruct(s: bytes, order: Order, inp: bytes, p: nat, depth: nat)
    requires Exact(s) && s[0] == '('
    ensures Traced(DecodeStruct(s, order, inp, p, depth), SigsStruct(s, order, inp, p, depth), s, inp)
    decreases |inp|, |s|, 2
  {
    hide DecodeFields, SigsFields, ScanOne, Part, Tail, Hollow, Traced;
    var r := DecodeStruct(s, order, inp, p, depth);
    if depth >= MAX_DEPTH {
      PlainlyTraced(r, s, inp);
    } else {
      var fs := FieldSigs(s);
      var vs := DecodeFields(fs, order, inp, p, depth + 1, []);
      var sigs := SigsFields(fs, order, inp, p, depth + 1);
      TraceFields(fs, order, inp, p, depth + 1, []);
      PartOf(fs, s, 1);
      WholePart(inp);
      Widened(vs, sigs, fs, inp, {}, s, inp);
      assert sigs + {} == sigs;
      Same(vs, r, sigs, s, inp);
    }
  }

  lemma {:induction false} TraceList(s: bytes, order: Order, inp: bytes, p: nat, depth: nat)
    requires Exact(s) && s[0] == 'a'
    ensures |s| > 1 && s[1] == '{' ==>
              Traced(DecodeDict(s, order, inp, p, depth), SigsDict(s, order, inp, p, depth), s, inp)
    ensures !(|s| > 1 && s[1] == '{') ==>
              Traced(DecodeArray(s, order, inp, p, depth), SigsArray(s, order, inp, p, depth), s, inp)
    decreases |inp|, |s|, 2
  {
    if |s| > 1 && s[1] == '{' {
      TraceDict(s, order, inp, p, depth);
    } else {
      TraceArray(s, order, inp, p, depth);
    }
  }

  /** Behind the length and the padding of an array or dict. */
  lemma ListParts(order: Order, inp: bytes, p: nat, n: nat)
    ensures var l := DecU32(order, inp, p); l.Got? ==> var b := Skip(l.rest, l.pos, n); b.Got? ==> Tail(b.rest, inp)
  {
    hide Part, Tail, Skip, DecU32;
    U32Parts(order, inp, p);
    var l := DecU32(order, inp, p);
    if l.Got? {
      SkipParts(l.rest, l.pos, n);
      var b := Skip(l.rest, l.pos, n);
      if b.Got? {
        TailOfTail(b.rest, l.rest, inp);
      }
    }
  }

  lemma {:induction false} TraceDict(s: bytes, order: Order, inp: bytes, p: nat, depth: nat)
    requires Exact(s) && |s| > 1 && s[0] == 'a' && s[1] == '{'
    ensures Traced(DecodeDict(s, order, inp, p, depth), SigsDict(s, order, inp, p, depth), s, inp)
    decreases |inp|, |s|, 1
  {
    hide DecodeEntries, SigsEntries, DictSig, DecU32, Skip, ScanOne, Part, Tail, Hollow, Traced;
    var kv, n := DictSig(s), DecU32(order, inp, p);
    var r := DecodeDict(s, order, inp, p, depth);
    ListParts(order, inp, p, 8);
    if depth >= MAX_DEPTH - 1 || !n.Got? || !Skip(n.rest, n.pos, 8).Got? {
      PlainlyTraced(r, s, inp);
    } else {
      var b := Skip(n.rest, n.pos, 8);
      var es := DecodeEntries(kv[..1], kv[1..], order, b.rest, b.pos, b.pos + n.v, depth + 2, []);
      var sigs := SigsEntries(kv[..1], kv[1..], order, b.rest, b.pos, b.pos + n.v, depth + 2);
      TraceEntries(kv[..1], kv[1..], kv, order, b.rest, b.pos, b.pos + n.v, depth + 2, []);
      PartOf(kv, s, 2);
      Widened(es, sigs, kv, b.rest, {}, s, inp);
      assert sigs + {} == sigs;
      Same(es, r, sigs, s, inp);
    }
  }

  lemma {:induction false} TraceArray(s: bytes, order: Order, inp: bytes, p: nat, depth: nat)
    requires Exact(s) && s[0] == 'a' && !(|s| > 1 && s[1] == '{')
    ensures Traced(DecodeArray(s, order, inp, p, depth), SigsArray(s, order, inp, p, depth), s, inp)
    decreases |inp|, |s|, 1
  {
    hide DecodeElems, SigsElems, DecU32, Skip, ScanOne, Part, Tail, Hollow, Traced;
    var e, n := ElemSig(s), DecU32(order, inp, p);
    var r := DecodeArray(s, order, inp, p, depth);
    ListParts(order, inp, p, LetterAlignment(e[0]));
    if depth >= MAX_DEPTH || !n.Got? || !Skip(n.rest, n.pos, LetterAlignment(e[0])).Got? {
      PlainlyTraced(r, s, inp);
    } else {
      var b := Skip(n.rest, n.pos, LetterAlignment(e[0]));
      var vs := DecodeElems(e, order, b.rest, b.pos, b.pos + n.v, depth + 1, []);
      var sigs := SigsElems(e, order, b.rest, b.pos, b.pos + n.v, depth + 1);
      TraceElems(e, order, b.rest, b.pos, b.pos + n.v, depth + 1, []);
      PartOf(e, s, 1);
      Widened(vs, sigs, e, b.rest, {}, s, inp);
      assert sigs + {} == sigs;
      Same(vs, r, sigs, s, inp);
    }
  }

  /** One value decoded, and then what follows it. */
  lemma Joined<T, U>(v: Dec<T>, sigs: set<bytes>, t: bytes, q: Dec<U>, more: set<bytes>, u: bytes, s: bytes, inp: bytes)
    requires v.Got? && Traced(v, sigs, t, inp) && Traced(q, more, u, v.rest) && Part(u, s)
    ensures Traced(q, sigs + more, s, inp)
  {
    hide Traced, Part, Tail;
    TracedParts(v, sigs, t, inp);
    Widened(q, more, u, v.rest, sigs, s, inp);
    assert more + sigs == sigs + more;
  }

  lemma TracedParts<T>(v: Dec<T>, sigs: set<bytes>, t: bytes, inp: bytes)
    requires Traced(v, sigs, t, inp)
    ensures (v.Got? ==> Tail(v.rest, inp)) && forall g :: g in sigs ==> Part(g, inp)
  {
  }

  lemma {:induction false} TraceFields(s: bytes, order: Order, inp: bytes, p: nat, depth: nat, acc: seq<Value>)
    ensures Traced(DecodeFields(s, order, inp, p, depth, acc), SigsFields(s, order, inp, p, depth), s, inp)
    decreases |inp|, |s|, 4
  {
    hide DecodeOne, SigsOne, HeadSig, ScanOne, Part, Tail, Hollow, Traced;
    var r := DecodeFields(s, order, inp, p, depth, acc);
    WholePart(inp);
    if s == [] || ScanOne(s, 0).Bad? {
      PlainlyTraced(r, s, inp);
    } else {
      var h, rem := HeadSig(s), ScanOne(s, 0).rem;
      var v, sigs := DecodeOne(h, order, inp, p, depth), SigsOne(h, order, inp, p, depth);
      TraceOne(h, order, inp, p, depth);
      PartOf(h, s, 0);
      PartOf(rem, s, |s| - |rem|);
      if v.Got? {
        TraceFields(rem, order, v.rest, v.pos, depth, acc + [v.v]);
        Joined(v, sigs, h, r, SigsFields(rem, order, v.rest, v.pos, depth), rem, s, inp);
      } else {
        Widened(v, sigs, h, inp, {}, s, inp);
        Same(v, r, sigs + {}, s, inp);
      }
    }
  }

  lemma {:induction false} TraceElems(e: bytes, order: Order, inp: bytes, p: nat, end: nat, depth: nat, acc: seq<Value>)
    requires Exact(e)
    ensures Traced(DecodeElems(e, order, inp, p, end, depth, acc), SigsElems(e, order, inp, p, end, depth), e, inp)
    decreases |inp|, |e|, 4
  {
    hide DecodeOne, SigsOne, ScanOne, AlignUp, Part, Tail, Hollow, Traced;
    var r := DecodeElems(e, order, inp, p, end, depth, acc);
    WholePart(inp);
    WholePart(e);
    if p >= end {
      PlainlyTraced(r, e, inp);
    } else {
      var v, sigs := DecodeOne(e, order, inp, p, depth), SigsOne(e, order, inp, p, depth);
      TraceOne(e, order, inp, p, depth);
      assert sigs + {} == sigs;
      if !v.Got? {
        Same(v, r, sigs, e, inp);
      } else if v.pos == p {
        DecodeMovesExactly(e, order, inp, p, depth);
        StuckHere(v, sigs, r, e, inp);
      } else {
        TraceElems(e, order, v.rest, v.pos, end, depth, acc + [v.v]);
        Joined(v, sigs, e, r, SigsElems(e, order, v.rest, v.pos, end, depth), e, e, inp);
      }
    }
  }

  lemma StuckHere<T, U>(v: Dec<T>, sigs: set<bytes>, r: Dec<U>, e: bytes, inp: bytes)
    requires Traced(v, sigs, e, inp) && r == Stuck(e) && Hollow(e) && Exact(e)
    ensures Traced(r, sigs, e, inp)
  {
    hide Part, Tail, Hollow, Exact;
    WholePart(e);
  }

  lemma {:induction false} TraceEntries(k: bytes, e: bytes, s: bytes, order: Order, inp: bytes, p: nat, end: nat,
                                        depth: nat, acc: seq<Value>)
    requires Exact(k) && |k| == 1 && IsBasic(k[0]) && Exact(e) && s == k + e
    ensures Traced(DecodeEntries(k, e, order, inp, p, end, depth, acc), SigsEntries(k, e, order, inp, p, end, depth), s, inp)
    decreases |inp|, |e|, 4
  {
    hide DecodeOne, SigsOne, ScanOne, Skip, SetIndex, Part, Tail, Hollow, Traced;
    var r := DecodeEntries(k, e, order, inp, p, end, depth, acc);
    var a := Skip(inp, p, 8);
    WholePart(inp);
    SkipParts(inp, p, 8);
    PartOf(k, s, 0);
    PartOf(e, s, 1);
    WholePart(s);
    if p >= end || !a.Got? || !IsKey(k[0]) {
      PlainlyTraced(r, s, inp);
    } else {
      var kv, sigs := DecodeOne(k, order, a.rest, a.pos, depth), SigsOne(k, order, a.rest, a.pos, depth);
      TraceOne(k, order, a.rest, a.pos, depth);
      Widened(kv, sigs, k, a.rest, {}, s, inp);
      assert sigs + {} == sigs;
      if !kv.Got? {
        Same(kv, r, sigs, s, inp);
      } else {
        var vv, more := DecodeOne(e, order, kv.rest, kv.pos, depth), SigsOne(e, order, kv.rest, kv.pos, depth);
        TraceOne(e, order, kv.rest, kv.pos, depth);
        Joined(kv, sigs, s, vv, more, e, s, inp);
        if !vv.Got? {
          assert (sigs + more) + {} == sigs + more;
          Same(vv, r, sigs + more, s, inp);
        } else {
          var set3 := SigsEntries(k, e, order, vv.rest, vv.pos, end, depth);
          TraceEntries(k, e, s, order, vv.rest, vv.pos, end, depth, SetIndex(acc, kv.v, vv.v));
          Joined(vv, sigs + more, s, r, set3, s, s, inp);
        }
      }
    }
  }

  // ---------------------------------------------------------------- decoding ends without empty structs

  ghost predicate HasEmptyStruct(s: bytes)
  {
    Part("()", s)
  }

  /** A hollow type contains an empty struct. */
  lemma {:induction false} HollowHasEmptyStruct(s: bytes)
    requires Exact(s) && Hollow(s)
    ensures HasEmptyStruct(s)
    decreases |s|
  {
    hide Part, Tail, ScanOne, ScanList, HeadSig;
    Letter(s, 0);
    var fs := FieldSigs(s);
    assert s == (['('] + fs) + [')'];
    if fs == [] {
      assert s == "()";
      WholePart(s);
    } else {
      var h := FirstField(s);
      HollowFields(s);
      HollowHead(fs);
      HollowHasEmptyStruct(h);
      PartOf(h, fs, 0);
      PartOf(fs, s, 1);
      PartOfPart("()", h, fs);
      PartOfPart("()", fs, s);
    }
  }

  lemma FirstField(s: bytes) returns (h: bytes)
    requires Exact(s) && s[0] == '(' && FieldSigs(s) != []
    ensures ScanOne(FieldSigs(s), 0).Rem? && h == HeadSig(FieldSigs(s))
  {
    var fs := FieldsOf(s, 0);
    assert FieldSigs(s) == fs by {
      assert s == (['('] + fs) + [')'];
    }
    Shallower(fs);
    h := HeadSig(fs);
  }

  /** The front of a signature that scans one level down scans at the top. */
  lemma Shallower(s: bytes)
    requires s != [] && ScanList(s, 1).Rem?
    ensures ScanOne(s, 0).Rem? && ScanOne(s, 0).rem == ScanOne(s, 1).rem
  {
    TypeForPrints(s, 1);
    ScanPrint(TypeFor(s, 1), ScanOne(s, 1).rem, 0);
  }

  lemma NoEmptyStruct<T>(r: Dec<T>, sigs: set<bytes>, s: bytes, inp: bytes)
    requires Traced(r, sigs, s, inp) && !HasEmptyStruct(s)
    requires (forall g :: g in sigs ==> !HasEmptyStruct(g)) || !HasEmptyStruct(inp)
    ensures !r.Stuck?
  {
    hide Part, Tail, Hollow, Exact;
    if r.Stuck? {
      HollowHasEmptyStruct(r.elem);
      if Part(r.elem, s) {
        PartOfPart("()", r.elem, s);
      } else {
        var g :| g in sigs && Part(r.elem, g);
        PartOfPart("()", r.elem, g);
        PartOfPart("()", g, inp);
      }
    }
  }

  /** Decoding ends on every input in which no signature, given or read from a variant, has an empty struct. */
  lemma DecodingEnds(s: bytes, order: Order, inp: bytes, p: nat, depth: nat)
    requires !HasEmptyStruct(s) && forall g :: g in SigsFields(s, order, inp, p, depth) ==> !HasEmptyStruct(g)
    ensures !DecodeFields(s, order, inp, p, depth, []).Stuck?
  {
    hide Traced, HasEmptyStruct, DecodeFields, SigsFields;
    TraceFields(s, order, inp, p, depth, []);
    NoEmptyStruct(DecodeFields(s, order, inp, p, depth, []), SigsFields(s, order, inp, p, depth), s, inp);
  }

  /** In particular if the text of an empty struct is neither in the signature nor in the input. */
  lemma DecodingEndsWithoutTheText(s: bytes, order: Order, inp: bytes, p: nat, depth: nat)
    requires !HasEmptyStruct(s) && !HasEmptyStruct(inp)
    ensures !DecodeFields(s, order, inp, p, depth, []).Stuck?
    ensures Exact(s) ==> !DecodeOne(s, order, inp, p, depth).Stuck?
  {
    hide Traced, HasEmptyStruct, DecodeFields, SigsFields, DecodeOne, SigsOne, Exact;
    TraceFields(s, order, inp, p, depth, []);
    NoEmptyStruct(DecodeFields(s, order, inp, p, depth, []), SigsFields(s, order, inp, p, depth), s, inp);
    if Exact(s) {
      TraceOne(s, order, inp, p, depth);
      NoEmptyStruct(DecodeOne(s, order, inp, p, depth), SigsOne(s, order, inp, p, depth), s, inp);
    }
  }

  /** Whatever the input, what is left is its end. */
  lemma LeavesTheEnd(s: bytes, order: Order, inp: bytes, p: nat, depth: nat)
    ensures var r := DecodeFields(s, order, inp, p, depth, []);
            r.Got? ==> |r.rest| <= |inp| && r.pos == p + |inp| - |r.rest| && Tail(r.rest, inp)
  {
    hide DecodeFields, SigsFields;
    TraceFields(s, order, inp, p, depth, []);
  }

  // ---------------------------------------------------------------- arrays of empty structs

  lemma HollowStruct(s: bytes)
    requires Exact(s) && Hollow(s)
    ensures s[0] == '(' && |s| >= 2 && Hollow(FieldSigs(s))
  {
    hide ScanOne;
    Letter(s, 0);
    HollowFields(s);
  }

  /** How deep the structs of a hollow type nest. */
  function Levels(s: bytes): nat
    requires Exact(s) && Hollow(s)
    decreases |s|, 1
  {
    HollowStruct(s);
    1 + LevelsAll(FieldSigs(s))
  }

  function LevelsAll(s: bytes): nat
    requires Hollow(s)
    decreases |s|, 2
  {
    if s == [] || ScanOne(s, 0).Bad? then 0
    else
      HollowHead(s);
      var n, m := Levels(HeadSig(s)), LevelsAll(ScanOne(s, 0).rem);
      if n < m then m else n
  }

  /** A value of a hollow type takes nothing from the input; it decodes exactly when its structs are not too deep. */
  lemma {:induction false} HollowDecodesExactly(s: bytes, order: Order, inp: bytes, p: nat, depth: nat)
    requires Exact(s) && Hollow(s) && AlignUp(p, 8) == p
    ensures var r := DecodeOne(s, order, inp, p, depth);
            if depth + Levels(s) <= MAX_DEPTH then r.Got? && r.rest == inp && r.pos == p else r == Fail(DepthLimit)
    decreases |s|, 1
  {
    hide AlignUp, DecodeOne, DecodeFields, FieldSigs, ScanOne, LevelsAll, Exact, Hollow;
    HollowStruct(s);
    StructHere(s, order, inp, p, depth);
    if depth >= MAX_DEPTH {
    } else {
      FieldsListed(s);
      HollowFieldsDecodeExactly(FieldSigs(s), order, inp, p, depth + 1, []);
    }
  }

  /** A struct where no padding is needed. */
  lemma StructHere(s: bytes, order: Order, inp: bytes, p: nat, depth: nat)
    requires Exact(s) && s[0] == '(' && AlignUp(p, 8) == p
    ensures DecodeOne(s, order, inp, p, depth) == DecodeStruct(s, order, inp, p, depth)
  {
    hide AlignUp, DecodeStruct, ScanOne, Exact;
    AlignedAlready(inp, p);
  }

  lemma AlignedAlready(inp: bytes, p: nat)
    requires AlignUp(p, 8) == p
    ensures Skip(inp, p, 8) == Got([], inp, p)
  {
  }

  lemma FieldsListed(s: bytes)
    requires Exact(s) && s[0] == '('
    ensures ScanList(FieldSigs(s), 0).Rem?
  {
    var fs := FieldsOf(s, 0);
    assert FieldSigs(s) == fs by {
      assert s == (['('] + fs) + [')'];
    }
    ListShallower(fs);
  }

  lemma {:induction false} ListShallower(s: bytes)
    requires ScanList(s, 1).Rem?
    ensures ScanList(s, 0).Rem?
    decreases |s|
  {
    if s == [] {
    } else {
      Shallower(s);
      ListShallower(ScanOne(s, 1).rem);
    }
  }

  lemma {:induction false} HollowFieldsDecodeExactly(s: bytes, order: Order, inp: bytes, p: nat, depth: nat, acc: seq<Value>)
    requires Hollow(s) && ScanList(s, 0).Rem? && AlignUp(p, 8) == p && depth <= MAX_DEPTH
    ensures var r := DecodeFields(s, order, inp, p, depth, acc);
            if depth + LevelsAll(s) <= MAX_DEPTH then r.Got? && r.rest == inp && r.pos == p else r == Fail(DepthLimit)
    decreases |s|, 2
  {
    hide AlignUp, DecodeOne, HeadSig, ScanOne, Levels;
    if s == [] {
    } else {
      var h, rem := HeadSig(s), ScanOne(s, 0).rem;
      HollowHead(s);
      HollowDecodesExactly(h, order, inp, p, depth);
      var v := DecodeOne(h, order, inp, p, depth);
      if v.Got? {
        HollowFieldsDecodeExactly(rem, order, inp, p, depth, acc + [v.v]);
      }
    }
  }

  /** Elements of a hollow type, from a multiple of 8 on, never end if there are any and they decode. */
  lemma HollowElemsEndExactly(e: bytes, order: Order, inp: bytes, p: nat, end: nat, depth: nat)
    requires Exact(e) && Hollow(e) && AlignUp(p, 8) == p
    ensures DecodeElems(e, order, inp, p, end, depth, [])
         == if p >= end then Got([], inp, p)
            else if depth + Levels(e) <= MAX_DEPTH then Stuck(e) else Fail(DepthLimit)
  {
    hide DecodeOne, Levels, AlignUp;
    HollowDecodesExactly(e, order, inp, p, depth);
  }

  /** The length of an array at p, if the input has it and the padding to the multiple of 8 behind it. */
  function LengthAt(order: Order, inp: bytes, p: nat): nat
  {
    var q := AlignUp(p, 4) - p;
    if AlignUp(AlignUp(p, 4) + 4, 8) - p <= |inp| then Get(order, inp[q..q + 4]) else 0
  }

  /** An array of a hollow type is decoded for ever if and only if its length is not 0 and its structs are not too deep. */
  lemma HollowArrayStuckExactly(s: bytes, order: Order, inp: bytes, p: nat, depth: nat)
    requires Exact(s) && s[0] == 'a' && Hollow(s[1..])
    ensures |s| > 1 && s[1] != '{' && Exact(s[1..])
    ensures DecodeOne(s, order, inp, p, depth).Stuck?
       <==> LengthAt(order, inp, p) > 0 && depth + 1 + Levels(s[1..]) <= MAX_DEPTH
    ensures var r := DecodeOne(s, order, inp, p, depth); r.Stuck? ==> r.elem == s[1..]
  {
    hide AlignUp, DecodeElems, DecU32, Skip, Levels, Get, ScanOne, LengthAt;
    Letter(s, 0);
    var e := HollowElem(s);
    assert 1 <= Levels(e) by { HollowStruct(e); LevelsPositive(e); }
    var a := Skip(inp, p, 4);
    LengthRead(order, inp, p);
    if a.Got? {
      var n := DecU32(order, a.rest, a.pos);
      if n.Got? {
        var b := Skip(n.rest, n.pos, 8);
        if b.Got? {
          HollowElemsEndExactly(e, order, b.rest, b.pos, b.pos + n.v, depth + 1);
        }
      }
    }
  }

  lemma LevelsPositive(e: bytes)
    requires Exact(e) && Hollow(e)
    ensures Levels(e) >= 1
  {
  }

  lemma HollowElem(s: bytes) returns (e: bytes)
    requires Exact(s) && s[0] == 'a' && Hollow(s[1..])
    ensures |s| > 1 && s[1] == '(' && e == s[1..] == ElemSig(s) && Exact(e) && e[0] == '('
  {
    hide ScanOne;
    Letter(s, 0);
    assert s[1..][0] == s[1];
    e := ElemSig(s);
    Letter(e, 0);
  }

  /** What the decoder reads in front of the elements: the length, and the padding to a multiple of 8. */
  lemma LengthRead(order: Order, inp: bytes, p: nat)
    ensures var a := Skip(inp, p, 4);
            var n := if a.Got? then DecU32(order, a.rest, a.pos) else a.Without();
            var b := if n.Got? then Skip(n.rest, n.pos, 8) else n.Without();
            if b.Got? then n.v == LengthAt(order, inp, p) && AlignUp(b.pos, 8) == b.pos else LengthAt(order, inp, p) == 0
  {
    hide AlignUp, Get;
    AlignedTwice(p, 4);
    AlignedTwice(AlignUp(p, 4) + 4, 8);
    var q := AlignUp(p, 4) - p;
    if q + 4 <= |inp| {
      assert inp[q..][..4] == inp[q..q + 4];
      assert inp[q..][0..] == inp[q..];
    }
  }

  /** The smallest such input: an array of empty structs with the length 1. */
  lemma EmptyStructsNeverEnd()
    ensures Exact("a()")
    ensures DecodeOne("a()", Little, [1 as char, '\0', '\0', '\0', '\0', '\0', '\0', '\0'], 0, 0) == Stuck("()")
  {
    hide DecodeOne, Levels, Get, AlignUp;
    var inp := [1 as char, '\0', '\0', '\0', '\0', '\0', '\0', '\0'];
    EmptyStructTypes();
    assert "a()"[1..] == "()";
    OneElement(inp);
    HollowArrayStuckExactly("a()", Little, inp, 0, 0);
  }

  lemma EmptyStructTypes()
    ensures Exact("a()") && Exact("()") && Hollow("()") && Levels("()") == 1
  {
    assert "a()"[1..] == "()";
    assert "()"[1..] == ")";
    assert FieldSigs("()") == [];
  }

  lemma OneElement(inp: bytes)
    requires inp == [1 as char, '\0', '\0', '\0', '\0', '\0', '\0', '\0']
    ensures LengthAt(Little, inp, 0) == 1
  {
    var b := inp[0..4];
    assert b[1..][1..][1..] == ['\0'] && b[1..][1..] == ['\0', '\0'] && b[1..] == ['\0', '\0', '\0'];
    assert Get(Little, ['\0']) == 0;
    assert Get(Little, ['\0', '\0']) == 0;
    assert Get(Little, ['\0', '\0', '\0']) == 0;
  }
}
