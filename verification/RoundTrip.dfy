/** The decoder reads the D-Bus wire format back, and with it what the encoder writes. */
module RoundTrip {
  import opened Bytes
  import opened Signature
  import opened Values
  import opened Encoding
  import opened Agreement
  import opened Decoding

  const TWO_TO_THE_32 := 0x1_0000_0000

  // ---------------------------------------------------------------- what can be sent

  /** No struct without fields: such a struct takes no bytes. */
  predicate Solid(t: Ty)
    decreases t, 0
  {
    match t
    case Basic(_) => true
    case Array(e) => Solid(e)
    case Dict(_, v) => Solid(v)
    case Struct(fs) => fs != [] && AllSolid(fs)
  }

  predicate AllSolid(ts: seq<Ty>)
    decreases ts, 1
  {
    ts == [] || (Solid(ts[0]) && AllSolid(ts[1..]))
  }

  /** A type whose signature the scanner accepts. */
  predicate Wire(t: Ty)
  {
    Lettered(t) && Nest(t) <= MAX_NESTING && Solid(t)
  }

  predicate AllWire(ts: seq<Ty>)
  {
    LetteredAll(ts) && NestAll(ts) <= MAX_NESTING && AllSolid(ts)
  }

  /** The signatures inside v fit into a signature and the types inside variants are wire types. */
  predicate Sendable(t: Ty, v: Value)
    requires HasType(v, t)
    decreases v, 0
  {
    match t
    case Basic(c) =>
      && (c == 'v' ==> Wire(v.ty) && |Print(v.ty)| <= MAX_SIGNATURE && Sendable(v.ty, v.v))
      && (c == 'g' ==> ValidSignature(v.s))
    case Struct(fs) => AllSendable(Each(fs), v.vs)
    case _ => AllSendable(Every(ElemType(t)), v.vs)
  }

  predicate AllSendable(row: Row, vs: seq<Value>)
    requires HaveTypes(vs, row)
    decreases vs, 1
  {
    vs != [] ==> Sendable(row.Head(), vs[0]) && AllSendable(row.Tail(), vs[1..])
  }

  /** Everything but the alignment that a value needs to arrive. */
  predicate Ready(t: Ty, v: Value, depth: nat)
  {
    Wire(t) && HasType(v, t) && Sendable(t, v) && Encodable(t, v, depth)
  }

  // ---------------------------------------------------------------- reading single pieces

  lemma TakeFront(b: bytes, w: bytes, p: nat)
    ensures Take(b + w, p, |b|) == Got(b, w, p + |b|)
  {
    Parted(b, w);
  }

  lemma SkipPad(w: bytes, p: nat, n: nat)
    ensures Skip(Pad(p, n) + w, p, n) == Got(Pad(p, n), w, AlignUp(p, n))
  {
    TakeFront(Pad(p, n), w, p);
  }

  lemma Limit32()
    ensures Pow256(4) == TWO_TO_THE_32
  {
    assert Pow256(3) == 256 * Pow256(2) && Pow256(2) == 256 * Pow256(1);
  }

  lemma ReadU32(order: Order, n: nat, w: bytes, p: nat)
    requires n < TWO_TO_THE_32
    ensures DecU32(order, Pad(p, 4) + (U32(order, n) + w), p) == Got(n, w, AlignUp(p, 4) + 4)
  {
    SkipPad(U32(order, n) + w, p, 4);
    TakeFront(U32(order, n), w, AlignUp(p, 4));
    Limit32();
    GetPut(order, n, 4);
  }

  lemma ReadText(s: bytes, w: bytes, p: nat)
    ensures DecText(|s|, (s + ['\0']) + w, p) == Got(s, w, p + |s| + 1)
  {
    TakeFront(s + ['\0'], w, p);
    Parted(s, ['\0']);
  }

  lemma ReadSig(s: bytes, w: bytes, p: nat)
    requires ValidSignature(s)
    ensures DecSignature(SigBytes(s) + w, p) == Got(s, w, p + |SigBytes(s)|)
  {
    var n: bytes := [ToByte(|s|)];
    Assoc(n, s, ['\0']);
    Assoc(n, s + ['\0'], w);
    TakeFront(n, (s + ['\0']) + w, p);
    ReadText(s, w, p + 1);
  }

  /** Where nothing is padded nothing is skipped. */
  lemma SkipNothing(w: bytes, p: nat, n: nat)
    requires AlignUp(p, n) == p
    ensures Skip(w, p, n) == Got([], w, p) && Pad(p, n) + w == w
  {
  }

  predicate ScalarReads(c: byte, v: Value, order: Order, p: nat, w: bytes)
    requires IsBasic(c) && c != 'v' && HasType(v, Basic(c))
  {
    var b := Scalar(c, v, order, p);
    var a := Skip(b + w, p, LetterAlignment(c));
    a.Got? && DecScalar(c, order, a.rest, a.pos) == Got(v, w, p + |b|)
  }

  lemma ReadBoolean(v: Value, order: Order, p: nat, w: bytes)
    requires v.Boolean?
    ensures ScalarReads('b', v, order, p, w)
  {
    hide AlignUp, DecU32, Skip, U32, Pad;
    var n := if v.b then 1 else 0;
    AlignedTwice(p, 1);
    SkipNothing(Scalar('b', v, order, p) + w, p, 1);
    ReadU32(order, n, w, p);
    Assoc(Pad(p, 4), U32(order, n), w);
  }

  lemma ReadString(c: byte, v: Value, order: Order, p: nat, w: bytes)
    requires (c == 's' || c == 'o') && v.Text? && |v.s| < TWO_TO_THE_32
    ensures ScalarReads(c, v, order, p, w)
  {
    hide AlignUp, DecU32, DecText, Skip, U32, Pad;
    var n, text, q := U32(order, |v.s|), v.s + ['\0'], AlignUp(p, 4);
    Assoc(Pad(p, 4), n + text, w);
    Assoc(n, text, w);
    SkipPad(n + (text + w), p, 4);
    AlignedTwice(p, 4);
    SkipNothing(n + (text + w), q, 4);
    ReadU32(order, |v.s|, text + w, q);
    ReadText(v.s, w, q + 4);
  }

  lemma ReadNumber(c: byte, v: Value, order: Order, p: nat, w: bytes)
    requires IsNumber(c) && HasType(v, Basic(c))
    ensures ScalarReads(c, v, order, p, w)
  {
    hide AlignUp, Pad, Get, Put, ToBits, FromBits, InRange, Skip;
    assert Size(c) == LetterAlignment(c);
    var b := Put(order, ToBits(c, v.n), Size(c));
    Assoc(Pad(p, Size(c)), b, w);
    SkipPad(b + w, p, Size(c));
    TakeFront(b, w, AlignUp(p, Size(c)));
    GetPut(order, ToBits(c, v.n), Size(c));
    FromToBits(c, v.n);
  }

  lemma ReadSignatureValue(v: Value, order: Order, p: nat, w: bytes)
    requires v.Sig? && ValidSignature(v.s)
    ensures ScalarReads('g', v, order, p, w)
  {
    hide AlignUp, DecSignature, SigBytes, Skip;
    AlignedTwice(p, 1);
    SkipNothing(SigBytes(v.s) + w, p, 1);
    ReadSig(v.s, w, p);
  }

  lemma ReadScalar(c: byte, v: Value, order: Order, p: nat, w: bytes)
    requires IsBasic(c) && c != 'v' && HasType(v, Basic(c)) && Sendable(Basic(c), v)
    requires |Scalar(c, v, order, p)| < TWO_TO_THE_32
    ensures ScalarReads(c, v, order, p, w)
  {
    hide ScalarReads, AlignUp, Pad, U32;
    if c == 'b' {
      ReadBoolean(v, order, p, w);
    } else if c == 's' || c == 'o' {
      ReadString(c, v, order, p, w);
    } else if c == 'g' {
      ReadSignatureValue(v, order, p, w);
    } else {
      ReadNumber(c, v, order, p, w);
    }
  }

  // ---------------------------------------------------------------- reading whole values

  lemma ExactPrint(t: Ty)
    requires Wire(t)
    ensures Exact(Print(t)) && TypeFor(Print(t), 0) == t
  {
    TypeForPrint(t, [], 0);
    assert Print(t) + [] == Print(t);
  }

  lemma FirstLetter(t: Ty)
    requires Wire(t)
    ensures t.Basic? ==> Print(t) == [t.c] && IsBasic(t.c)
    ensures t.Struct? ==> Print(t)[0] == '('
  {
  }

  /** The decoder reads the wire format of every value that can be sent, whatever follows it. */
  lemma {:induction false} DecodesMarshalled(t: Ty, v: Value, order: Order, p: nat, depth: nat, w: bytes)
    requires Ready(t, v, depth) && |Marshal(t, v, order, p)| < TWO_TO_THE_32
    ensures Exact(Print(t))
    ensures DecodeOne(Print(t), order, Marshal(t, v, order, p) + w, p, depth)
         == Got(v, w, p + |Marshal(t, v, order, p)|)
    decreases v, 3
  {
    hide AlignUp, Scalar, Framed, DataStart, DecScalar, DecodeVariant, DecodeArray, DecodeDict, DecodeStruct;
    hide Sendable, Encodable, Wire, ScanOne, Print, Skip;
    ExactPrint(t);
    FirstLetter(t);
    match t
    case Basic(c) =>
      if c == 'v' {
        AlignedTwice(p, 1);
        SkipNothing(Marshal(t, v, order, p) + w, p, 1);
        DecodesVariant(v, order, p, depth, w);
      } else {
        ReadScalar(c, v, order, p, w);
      }
    case Struct(fs) =>
      var b := MarshalAll(Each(fs), v.vs, order, AlignUp(p, 8));
      Assoc(Pad(p, 8), b, w);
      SkipPad(b + w, p, 8);
      DecodesStruct(t, v, order, AlignUp(p, 8), depth, w);
    case _ =>
      DecodesList(t, v, order, p, depth, w);
  }

  lemma {:induction false} DecodesVariant(v: Value, order: Order, p: nat, depth: nat, w: bytes)
    requires Ready(Basic('v'), v, depth) && |Marshal(Basic('v'), v, order, p)| < TWO_TO_THE_32
    ensures DecodeVariant(order, Marshal(Basic('v'), v, order, p) + w, p, depth)
         == Got(v, w, p + |Marshal(Basic('v'), v, order, p)|)
    decreases v, 0
  {
    hide DecodeOne, AlignUp, ScanOne, ScanList, TypeFor, Dec.Follows, Print;
    var s := Print(v.ty);
    var sig := SigBytes(s);
    var b := Marshal(v.ty, v.v, order, p + |sig|);
    ExactPrint(v.ty);
    VariantSignature(v.ty, b + w, p);
    Assoc(sig, b, w);
    DecodesMarshalled(v.ty, v.v, order, p + |sig|, depth + 1, w);
  }

  lemma VariantSignature(t: Ty, w: bytes, p: nat)
    requires Wire(t) && |Print(t)| <= MAX_SIGNATURE
    ensures DecVariantSignature(SigBytes(Print(t)) + w, p) == Got(Print(t), w, p + |SigBytes(Print(t))|)
  {
    ExactPrint(t);
    assert ScanList(Print(t), 0) == Rem([]);
    ReadSig(Print(t), w, p);
  }

  lemma {:induction false} DecodesStruct(t: Ty, v: Value, order: Order, q: nat, depth: nat, w: bytes)
    requires t.Struct? && Ready(t, v, depth) && Exact(Print(t))
    requires |MarshalAll(Each(t.fields), v.vs, order, q)| < TWO_TO_THE_32
    ensures var b := MarshalAll(Each(t.fields), v.vs, order, q);
            DecodeStruct(Print(t), order, b + w, q, depth) == Got(v, w, q + |b|)
    decreases v, 0
  {
    hide DecodeFields, Marshal;
    assert FieldSigs(Print(t)) == PrintAll(t.fields);
    DecodesFields(t.fields, v.vs, order, q, depth + 1, [], w);
    assert [] + v.vs == v.vs;
  }

  lemma HeadSigPrint(t: Ty, w: bytes)
    requires Wire(t)
    ensures ScanOne(Print(t) + w, 0) == Rem(w) && HeadSig(Print(t) + w) == Print(t)
  {
    ScanPrint(t, w, 0);
    Parted(Print(t), w);
  }

  lemma {:induction false} DecodesFields(ts: seq<Ty>, vs: seq<Value>, order: Order, p: nat, depth: nat,
                                         acc: seq<Value>, w: bytes)
    requires AllWire(ts) && HaveTypes(vs, Each(ts))
    requires AllSendable(Each(ts), vs) && AllEncodable(Each(ts), vs, depth)
    requires |MarshalAll(Each(ts), vs, order, p)| < TWO_TO_THE_32
    ensures var b := MarshalAll(Each(ts), vs, order, p);
            DecodeFields(PrintAll(ts), order, b + w, p, depth, acc) == Got(acc + vs, w, p + |b|)
    decreases vs, 2
  {
    hide DecodeOne, DecodeFields, Marshal, Sendable, Encodable, Solid, Lettered, Nest, Print;
    if vs == [] {
      FieldsDone(order, w, p, depth, acc);
      assert [] + w == w && acc + [] == acc;
    } else {
      var t, v := ts[0], vs[0];
      var b := Marshal(t, v, order, p);
      var rest := MarshalAll(Each(ts[1..]), vs[1..], order, p + |b|);
      Assoc(b, rest, w);
      DecodesMarshalled(t, v, order, p, depth, rest + w);
      FieldsStep(t, v, PrintAll(ts[1..]), order, b + (rest + w), p, rest + w, p + |b|, depth, acc);
      DecodesFields(ts[1..], vs[1..], order, p + |b|, depth, acc + [v], w);
      assert (acc + [v]) + vs[1..] == acc + vs;
    }
  }

  lemma FieldsDone(order: Order, inp: bytes, p: nat, depth: nat, acc: seq<Value>)
    ensures DecodeFields([], order, inp, p, depth, acc) == Got(acc, inp, p)
  {
  }

  lemma FieldsStep(t: Ty, v: Value, sigs: bytes, order: Order, inp: bytes, p: nat, rest: bytes, q: nat,
                   depth: nat, acc: seq<Value>)
    requires Wire(t) && Exact(Print(t))
    requires DecodeOne(Print(t), order, inp, p, depth) == Got(v, rest, q)
    ensures DecodeFields(Print(t) + sigs, order, inp, p, depth, acc)
         == DecodeFields(sigs, order, rest, q, depth, acc + [v])
  {
    hide DecodeOne, Print, ScanOne, HeadSig;
    HeadSigPrint(t, sigs);
  }

  lemma {:induction false} DecodesList(t: Ty, v: Value, order: Order, p: nat, depth: nat, w: bytes)
    requires IsList(t) && Ready(t, v, depth) && Exact(Print(t)) && |Marshal(t, v, order, p)| < TWO_TO_THE_32
    ensures DecodeOne(Print(t), order, Marshal(t, v, order, p) + w, p, depth)
         == Got(v, w, p + |Marshal(t, v, order, p)|)
    decreases v, 2
  {
    hide AlignUp, DecodeElems, DecodeEntries, MarshalAll, DecodeArray, DecodeDict, Framed, DataStart;
    hide Sendable, Encodable, Wire, ScanOne, Print, Skip, DecU32;
    var e := ElemType(t);
    var body := MarshalAll(Every(e), v.vs, order, DataStart(e, p));
    ListHeader(e, body, order, p, w);
    ListMarshal(t, v, order, p);
    if t.Array? {
      DecodesArray(t, v, order, p, depth, w);
    } else {
      DecodesDict(t, v, order, p, depth, w);
    }
  }

  /** What is left of an array behind its first padding. */
  function ListTail(e: Ty, body: bytes, order: Order, p: nat, w: bytes): bytes
  {
    U32(order, |body|) + (Pad(AlignUp(p, 4) + 4, Alignment(e)) + (body + w))
  }

  /** Padding, length and padding of an array, as the decoder skips and reads them. */
  lemma ListHeader(e: Ty, body: bytes, order: Order, p: nat, w: bytes)
    requires |body| < TWO_TO_THE_32
    ensures var q := AlignUp(p, 4);
            var tail, pad := ListTail(e, body, order, p, w), Pad(q + 4, Alignment(e));
            && Skip(Framed(e, body, order, p) + w, p, 4) == Got(Pad(p, 4), tail, q)
            && DecU32(order, tail, q) == Got(|body|, pad + (body + w), q + 4)
            && Skip(pad + (body + w), q + 4, Alignment(e)) == Got(pad, body + w, DataStart(e, p))
  {
    hide AlignUp, DecU32, Skip, U32;
    var q := AlignUp(p, 4);
    var n, pad := U32(order, |body|), Pad(q + 4, Alignment(e));
    Assoc(Pad(p, 4), n + (pad + body), w);
    Assoc(n, pad + body, w);
    Assoc(pad, body, w);
    SkipPad(n + (pad + (body + w)), p, 4);
    AlignedTwice(p, 4);
    SkipNothing(n + (pad + (body + w)), q, 4);
    ReadU32(order, |body|, pad + (body + w), q);
    SkipPad(body + w, q + 4, Alignment(e));
  }

  lemma ArraySigPrint(t: Ty)
    requires t.Array? && Exact(Print(t)) && Lettered(t.elem)
    ensures |Print(t)| > 1 && Print(t)[0] == 'a' && Print(t)[1] != '{' && Print(t)[1..] == Print(t.elem)
    ensures Print(t.elem)[0] == Print(t)[1] && Alignment(t.elem) == LetterAlignment(Print(t)[1])
  {
    hide ScanOne;
    PrintStart(t.elem);
    assert Print(t)[1] == Print(t.elem)[0] && Print(t)[1..] == Print(t.elem);
  }

  lemma {:induction false} DecodesArray(t: Ty, v: Value, order: Order, p: nat, depth: nat, w: bytes)
    requires t.Array? && Ready(t, v, depth) && Exact(Print(t)) && |Marshal(t, v, order, p)| < TWO_TO_THE_32
    ensures var body := MarshalAll(Every(t.elem), v.vs, order, DataStart(t.elem, p));
            && Print(t)[0] == 'a' && |Print(t)| > 1 && Print(t)[1] != '{'
            && DecodeArray(Print(t), order, ListTail(t.elem, body, order, p, w), AlignUp(p, 4), depth)
               == Got(v, w, DataStart(t.elem, p) + |body|)
    decreases v, 0
  {
    hide AlignUp, DecodeElems, MarshalAll, ListTail, DecU32, Skip, DataStart, Framed, ScanOne, Print;
    var e := t.elem;
    ArraySigPrint(t);
    ExactPrint(e);
    var body := MarshalAll(Every(e), v.vs, order, DataStart(e, p));
    ListHeader(e, body, order, p, w);
    DecodesElems(e, v.vs, order, DataStart(e, p), depth + 1, [], w);
    assert [] + v.vs == v.vs;
  }

  lemma DictSigPrint(t: Ty)
    requires t.Dict? && Exact(Print(t))
    ensures |Print(t)| > 1 && Print(t)[0] == 'a' && Print(t)[1] == '{'
    ensures var kv := DictSig(Print(t));
            kv == [t.key] + Print(t.val) && kv[..1] == [t.key] && kv[1..] == Print(t.val)
    ensures Alignment(ElemType(t)) == 8
  {
    hide ScanOne;
    var kv := [t.key] + Print(t.val);
    assert Print(t) == ['a', '{'] + kv + ['}'];
    assert Print(t)[2..|Print(t)| - 1] == kv;
    Parted([t.key], Print(t.val));
  }

  lemma {:induction false} DecodesDict(t: Ty, v: Value, order: Order, p: nat, depth: nat, w: bytes)
    requires t.Dict? && Ready(t, v, depth) && Exact(Print(t)) && |Marshal(t, v, order, p)| < TWO_TO_THE_32
    ensures var e := ElemType(t);
            var body := MarshalAll(Every(e), v.vs, order, DataStart(e, p));
            && |Print(t)| > 1 && Print(t)[0] == 'a' && Print(t)[1] == '{'
            && DecodeDict(Print(t), order, ListTail(e, body, order, p, w), AlignUp(p, 4), depth)
               == Got(v, w, DataStart(e, p) + |body|)
    decreases v, 0
  {
    hide AlignUp, DecodeEntries, MarshalAll, ListTail, DecU32, Skip, DataStart, Framed, DictSig, ScanOne, Print;
    hide Dec.Follows, DecodeDict, Sendable, AllSendable, Encodable, AllEncodable, DistinctKeys, Wire, HaveTypes;
    var e := ElemType(t);
    DictReady(t, v, depth);
    DictSigPrint(t);
    ExactPrint(t.val);
    var body := MarshalAll(Every(e), v.vs, order, DataStart(e, p));
    ListHeader(e, body, order, p, w);
    assert [] + v.vs == v.vs;
    DecodesEntries(t, v.vs, order, DataStart(e, p), depth + 2, [], w);
    DictDecoded(Print(t), [t.key], Print(t.val), order, ListTail(e, body, order, p, w), AlignUp(p, 4), depth,
                DecU32(order, ListTail(e, body, order, p, w), AlignUp(p, 4)));
  }

  lemma DictReady(t: Ty, v: Value, depth: nat)
    requires t.Dict? && Ready(t, v, depth)
    ensures v.List? && HaveTypes(v.vs, Every(ElemType(t))) && DistinctKeys(v.vs)
    ensures Wire(t.val) && IsKey(t.key) && IsBasic(t.key) && Exact([t.key]) && depth < MAX_DEPTH - 1
    ensures AllSendable(Every(ElemType(t)), v.vs) && AllEncodable(Every(ElemType(t)), v.vs, depth + 1)
  {
    hide AllSendable, AllEncodable, DistinctKeys, HaveTypes;
  }

  /** What decodeDict puts together. */
  lemma DictDecoded(s: bytes, k: bytes, e: bytes, order: Order, inp: bytes, p: nat, depth: nat, n: Dec<nat>)
    requires Exact(k) && |k| == 1 && IsBasic(k[0]) && Exact(e)
    requires Exact(s) && |s| > 1 && s[0] == 'a' && s[1] == '{' && DictSig(s)[..1] == k && DictSig(s)[1..] == e
    requires depth < MAX_DEPTH - 1 && n == DecU32(order, inp, p) && n.Got?
    requires var b := Skip(n.rest, n.pos, 8);
             b.Got? && DecodeEntries(k, e, order, b.rest, b.pos, b.pos + n.v, depth + 2, []).Got?
    ensures var b := Skip(n.rest, n.pos, 8);
            var es := DecodeEntries(k, e, order, b.rest, b.pos, b.pos + n.v, depth + 2, []);
            DecodeDict(s, order, inp, p, depth) == Got(List(es.v), es.rest, es.pos)
  {
    hide DecodeEntries, DecU32, Skip, DictSig, ScanOne, Dec.Follows;
  }

  lemma {:induction false} DecodesElems(e: Ty, vs: seq<Value>, order: Order, p: nat, depth: nat,
                                        acc: seq<Value>, w: bytes)
    requires Wire(e) && HaveTypes(vs, Every(e)) && Exact(Print(e))
    requires AllSendable(Every(e), vs) && AllEncodable(Every(e), vs, depth)
    requires |MarshalAll(Every(e), vs, order, p)| < TWO_TO_THE_32
    ensures var b := MarshalAll(Every(e), vs, order, p);
            DecodeElems(Print(e), order, b + w, p, p + |b|, depth, acc) == Got(acc + vs, w, p + |b|)
    decreases vs, 2
  {
    hide DecodeOne, Marshal, Sendable, Encodable, Exact;
    if vs == [] {
      assert [] + w == w && acc + [] == acc;
    } else {
      var v := vs[0];
      var b := Marshal(e, v, order, p);
      var rest := MarshalAll(Every(e), vs[1..], order, p + |b|);
      Assoc(b, rest, w);
      SolidTakesBytes(e, v, order, p);
      DecodesMarshalled(e, v, order, p, depth, rest + w);
      DecodesElems(e, vs[1..], order, p + |b|, depth, acc + [v], w);
      assert (acc + [v]) + vs[1..] == acc + vs;
    }
  }

  lemma {:induction false} SolidTakesBytes(t: Ty, v: Value, order: Order, p: nat)
    requires HasType(v, t) && Solid(t)
    ensures |Marshal(t, v, order, p)| > 0
    decreases v, 0
  {
    if !t.Struct? {
    } else {
      SolidTakesBytes(t.fields[0], v.vs[0], order, AlignUp(p, 8));
    }
  }

  lemma {:induction false} DecodesEntries(t: Ty, es: seq<Value>, order: Order, p: nat, depth: nat,
                                          acc: seq<Value>, w: bytes)
    requires t.Dict? && Wire(t) && HaveTypes(es, Every(ElemType(t))) && IsKey(t.key) && depth >= 1
    requires Exact([t.key]) && Exact(Print(t.val)) && DistinctKeys(acc + es)
    requires AllSendable(Every(ElemType(t)), es) && AllEncodable(Every(ElemType(t)), es, depth - 1)
    requires |MarshalAll(Every(ElemType(t)), es, order, p)| < TWO_TO_THE_32
    ensures var b := MarshalAll(Every(ElemType(t)), es, order, p);
            DecodeEntries([t.key], Print(t.val), order, b + w, p, p + |b|, depth, acc) == Got(acc + es, w, p + |b|)
    decreases es, 2
  {
    hide DecodeOne, DecodeEntries, Marshal, MarshalAll, HasType, HaveTypes, Sendable, AllSendable, Encodable, AllEncodable;
    hide ScanOne, DistinctKeys, AlignUp, Skip, SetIndex, Wire, Print;
    RowStep(Every(ElemType(t)), es, order, p, depth - 1);
    if es == [] {
      EntriesDone([t.key], Print(t.val), order, w, p, depth, acc);
      assert [] + w == w && acc + [] == acc;
    } else {
      var b := Marshal(ElemType(t), es[0], order, p);
      DecodesFirst(t, es, order, p, depth, acc, w);
      AppendOne(acc, es);
      DecodesEntries(t, es[1..], order, p + |b|, depth, acc + [es[0]], w);
    }
  }

  lemma {:induction false} DecodesFirst(t: Ty, es: seq<Value>, order: Order, p: nat, depth: nat, acc: seq<Value>, w: bytes)
    requires t.Dict? && Wire(t) && es != [] && HasType(es[0], ElemType(t)) && HaveTypes(es[1..], Every(ElemType(t)))
    requires IsKey(t.key) && depth >= 1 && Exact([t.key]) && Exact(Print(t.val)) && DistinctKeys(acc + es)
    requires Sendable(ElemType(t), es[0]) && Encodable(ElemType(t), es[0], depth - 1)
    requires HaveTypes(es, Every(ElemType(t)))
    requires var b := Marshal(ElemType(t), es[0], order, p);
             && MarshalAll(Every(ElemType(t)), es, order, p) == b + MarshalAll(Every(ElemType(t)), es[1..], order, p + |b|)
             && |MarshalAll(Every(ElemType(t)), es, order, p)| < TWO_TO_THE_32
    ensures var all := MarshalAll(Every(ElemType(t)), es, order, p);
            var b := Marshal(ElemType(t), es[0], order, p);
            && |b| > 0 && DistinctKeys((acc + [es[0]]) + es[1..])
            && DecodeEntries([t.key], Print(t.val), order, all + w, p, p + |all|, depth, acc)
               == DecodeEntries([t.key], Print(t.val), order, MarshalAll(Every(ElemType(t)), es[1..], order, p + |b|) + w,
                                p + |b|, p + |all|, depth, acc + [es[0]])
    decreases es, 1
  {
    hide DecodeOne, DecodeEntries, Marshal, MarshalAll, HasType, HaveTypes, Sendable, Encodable;
    hide ScanOne, DistinctKeys, AlignUp, Skip, SetIndex, Wire, Print, Dec.Follows, Exact, IsKey, IsBasic;
    var b := Marshal(ElemType(t), es[0], order, p);
    var rest := MarshalAll(Every(ElemType(t)), es[1..], order, p + |b|);
    Assoc(b, rest, w);
    EntryTakesBytes(t, es[0], order, p);
    DecodesEntry(t, es[0], order, p, p + |b + rest|, depth, acc, rest + w);
    SetIndexAppends(acc, es);
  }

  /** The first of a row of values of one type, and the others. */
  lemma RowStep(row: Row, vs: seq<Value>, order: Order, p: nat, depth: nat)
    requires row.Every? && HaveTypes(vs, row) && AllSendable(row, vs) && AllEncodable(row, vs, depth)
    ensures vs == [] ==> MarshalAll(row, vs, order, p) == []
    ensures vs != [] ==>
              && HasType(vs[0], row.t) && HaveTypes(vs[1..], row)
              && Sendable(row.t, vs[0]) && AllSendable(row, vs[1..])
              && Encodable(row.t, vs[0], depth) && AllEncodable(row, vs[1..], depth)
              && var b := Marshal(row.t, vs[0], order, p);
                 MarshalAll(row, vs, order, p) == b + MarshalAll(row, vs[1..], order, p + |b|)
  {
    hide Marshal, HasType, Sendable, Encodable;
  }

  lemma AppendOne(acc: seq<Value>, es: seq<Value>)
    requires es != []
    ensures (acc + [es[0]]) + es[1..] == acc + es
  {
  }

  lemma EntryTakesBytes(t: Ty, e: Value, order: Order, p: nat)
    requires t.Dict? && Wire(t) && HasType(e, ElemType(t))
    ensures |Marshal(ElemType(t), e, order, p)| > 0 && IsEntry(e)
  {
    EntryTyped(t, e);
    SolidTakesBytes(ElemType(t), e, order, p);
  }

  lemma EntriesDone(k: bytes, e: bytes, order: Order, inp: bytes, p: nat, depth: nat, acc: seq<Value>)
    requires Exact(k) && |k| == 1 && IsBasic(k[0]) && Exact(e)
    ensures DecodeEntries(k, e, order, inp, p, p, depth, acc) == Got(acc, inp, p)
  {
  }

  lemma {:induction false} DecodesEntry(t: Ty, e: Value, order: Order, p: nat, end: nat, depth: nat,
                                        acc: seq<Value>, w: bytes)
    requires t.Dict? && Wire(t) && HasType(e, ElemType(t)) && IsEntry(e) && IsKey(t.key) && depth >= 1
    requires Exact([t.key]) && Exact(Print(t.val))
    requires Sendable(ElemType(t), e) && Encodable(ElemType(t), e, depth - 1)
    requires var b := Marshal(ElemType(t), e, order, p); p < end && |b| < TWO_TO_THE_32
    ensures var b := Marshal(ElemType(t), e, order, p);
            DecodeEntries([t.key], Print(t.val), order, b + w, p, end, depth, acc)
            == DecodeEntries([t.key], Print(t.val), order, w, p + |b|, end, depth,
                             SetIndex(acc, e.vs[0], e.vs[1]))
    decreases e, 2
  {
    hide DecodeOne, DecodeEntries, Marshal, Sendable, Encodable, Ready, ScanOne, AlignUp, SetIndex, Wire, Print, Pad, HasType;
    hide Dec.Follows, Exact, IsKey, IsBasic;
    EntryTyped(t, e);
    EntryReady(t, e, depth);
    EntryMarshal(t, e, order, p);
    DecodesParts(t, e, order, p, end, depth, acc, w);
  }

  /** An entry as the padding, the key and the value it is made of. */
  lemma {:induction false} DecodesParts(t: Ty, e: Value, order: Order, p: nat, end: nat, depth: nat,
                                        acc: seq<Value>, w: bytes)
    requires t.Dict? && IsEntryOf(t, e) && Ready(Basic(t.key), e.vs[0], depth) && Ready(t.val, e.vs[1], depth)
    requires Exact([t.key]) && Exact(Print(t.val)) && IsKey(t.key) && p < end
    requires var q := AlignUp(p, 8);
             var k := Marshal(Basic(t.key), e.vs[0], order, q);
             |Pad(p, 8) + (k + Marshal(t.val, e.vs[1], order, q + |k|))| < TWO_TO_THE_32
    ensures var q := AlignUp(p, 8);
            var k := Marshal(Basic(t.key), e.vs[0], order, q);
            var b := Pad(p, 8) + (k + Marshal(t.val, e.vs[1], order, q + |k|));
            DecodeEntries([t.key], Print(t.val), order, b + w, p, end, depth, acc)
            == DecodeEntries([t.key], Print(t.val), order, w, p + |b|, end, depth, SetIndex(acc, e.vs[0], e.vs[1]))
    decreases e, 1
  {
    hide DecodeOne, DecodeEntries, Marshal, Ready, ScanOne, AlignUp, SetIndex, Print, Pad, HasType, Dec.Follows, Exact;
    var q := AlignUp(p, 8);
    var k := Marshal(Basic(t.key), e.vs[0], order, q);
    var v := Marshal(t.val, e.vs[1], order, q + |k|);
    Regroup(Pad(p, 8), k, v, w);
    DecodesPair(t, e, order, q, depth, w);
    EntryGlue([t.key], Print(t.val), order, k, v, w, p, end, depth, acc, e.vs[0], e.vs[1]);
  }

  lemma EntryGlue(key: bytes, val: bytes, order: Order, k: bytes, v: bytes, w: bytes, p: nat, end: nat, depth: nat,
                  acc: seq<Value>, kv: Value, vv: Value)
    requires Exact(key) && |key| == 1 && IsKey(key[0]) && Exact(val) && p < end
    requires DecodeOne(key, order, k + (v + w), AlignUp(p, 8), depth) == Got(kv, v + w, AlignUp(p, 8) + |k|)
    requires DecodeOne(val, order, v + w, AlignUp(p, 8) + |k|, depth) == Got(vv, w, AlignUp(p, 8) + |k| + |v|)
    ensures DecodeEntries(key, val, order, (Pad(p, 8) + (k + v)) + w, p, end, depth, acc)
         == DecodeEntries(key, val, order, w, p + |Pad(p, 8) + (k + v)|, end, depth, SetIndex(acc, kv, vv))
  {
    hide DecodeOne, DecodeEntries, Exact, AlignUp, Skip, SetIndex, Pad;
    var q := AlignUp(p, 8);
    PadLength(p, 8);
    Regroup(Pad(p, 8), k, v, w);
    SkipPad(k + (v + w), p, 8);
    OneEntry(key, val, order, Pad(p, 8) + (k + (v + w)), p, end, depth, acc,
             Got(Pad(p, 8), k + (v + w), q), Got(kv, v + w, q + |k|), Got(vv, w, q + |k| + |v|));
  }

  lemma PadLength(p: nat, n: nat)
    ensures p + |Pad(p, n)| == AlignUp(p, n)
  {
  }

  lemma Regroup(a: bytes, b: bytes, c: bytes, d: bytes)
    ensures (a + (b + c)) + d == a + (b + (c + d))
    ensures |a + (b + c)| == |a| + |b| + |c|
  {
    Assoc(a, b + c, d);
    Assoc(b, c, d);
  }

  lemma {:induction false} DecodesPair(t: Ty, e: Value, order: Order, q: nat, depth: nat, w: bytes)
    requires t.Dict? && IsEntryOf(t, e) && Ready(Basic(t.key), e.vs[0], depth) && Ready(t.val, e.vs[1], depth)
    requires Exact([t.key]) && Exact(Print(t.val))
    requires |Marshal(Basic(t.key), e.vs[0], order, q)| < TWO_TO_THE_32
    requires |Marshal(t.val, e.vs[1], order, q + |Marshal(Basic(t.key), e.vs[0], order, q)|)| < TWO_TO_THE_32
    ensures var k := Marshal(Basic(t.key), e.vs[0], order, q);
            var v := Marshal(t.val, e.vs[1], order, q + |k|);
            && DecodeOne([t.key], order, k + (v + w), q, depth) == Got(e.vs[0], v + w, q + |k|)
            && DecodeOne(Print(t.val), order, v + w, q + |k|, depth) == Got(e.vs[1], w, q + |k| + |v|)
    decreases e, 0
  {
    hide DecodeOne, Marshal, Sendable, Encodable, ScanOne, Wire, HasType, Print, Exact, IsBasic, Dec.Follows;
    var k := Marshal(Basic(t.key), e.vs[0], order, q);
    var v := Marshal(t.val, e.vs[1], order, q + |k|);
    KeyPrint(t.key);
    DecodesMarshalled(Basic(t.key), e.vs[0], order, q, depth, v + w);
    DecodesMarshalled(t.val, e.vs[1], order, q + |k|, depth, w);
  }

  lemma KeyPrint(c: byte)
    ensures Print(Basic(c)) == [c]
  {
  }

  /** One round of the loop over the entries of a dict. */
  lemma OneEntry(k: bytes, e: bytes, order: Order, inp: bytes, p: nat, end: nat, depth: nat, acc: seq<Value>,
                 a: Dec<bytes>, kv: Dec<Value>, vv: Dec<Value>)
    requires Exact(k) && |k| == 1 && IsKey(k[0]) && Exact(e) && p < end
    requires a.Got? && a == Skip(inp, p, 8)
    requires kv.Got? && kv == DecodeOne(k, order, a.rest, a.pos, depth)
    requires vv.Got? && vv == DecodeOne(e, order, kv.rest, kv.pos, depth)
    ensures DecodeEntries(k, e, order, inp, p, end, depth, acc)
         == DecodeEntries(k, e, order, vv.rest, vv.pos, end, depth, SetIndex(acc, kv.v, vv.v))
  {
    hide DecodeOne, Exact, Skip, SetIndex;
  }

  lemma EntryReady(t: Ty, e: Value, depth: nat)
    requires IsEntryOf(t, e) && Wire(t) && HasType(e, ElemType(t)) && depth >= 1 && IsKey(t.key)
    requires Sendable(ElemType(t), e) && Encodable(ElemType(t), e, depth - 1)
    ensures Ready(Basic(t.key), e.vs[0], depth) && Ready(t.val, e.vs[1], depth)
  {
    var row := Each([Basic(t.key), t.val]);
    assert row.Tail().Head() == t.val && e.vs[1..][0] == e.vs[1];
    assert AllSendable(row.Tail(), e.vs[1..]) && AllEncodable(row.Tail(), e.vs[1..], depth);
  }

  lemma EntryMarshal(t: Ty, e: Value, order: Order, p: nat)
    requires IsEntryOf(t, e) && HasType(e, ElemType(t))
    ensures var q := AlignUp(p, 8);
            var k := Marshal(Basic(t.key), e.vs[0], order, q);
            Marshal(ElemType(t), e, order, p) == Pad(p, 8) + (k + Marshal(t.val, e.vs[1], order, q + |k|))
  {
    hide AlignUp;
    var row := Each([Basic(t.key), t.val]);
    assert row.Tail().Head() == t.val && e.vs[1..][0] == e.vs[1] && e.vs[1..][1..] == [];
    var q := AlignUp(p, 8);
    var k := Marshal(Basic(t.key), e.vs[0], order, q);
    var v := Marshal(t.val, e.vs[1], order, q + |k|);
    assert MarshalAll(row.Tail(), e.vs[1..], order, q + |k|) == v + [] == v;
  }

  /** With distinct keys the decoded map grows by one entry at a time. */
  lemma SetIndexAppends(acc: seq<Value>, es: seq<Value>)
    requires es != [] && IsEntry(es[0]) && DistinctKeys(acc + es)
    ensures SetIndex(acc, es[0].vs[0], es[0].vs[1]) == acc + [es[0]]
    ensures DistinctKeys((acc + [es[0]]) + es[1..])
  {
    assert (acc + es)[|acc|] == es[0] && IsEntry(es[0]);
    assert (acc + [es[0]]) + es[1..] == acc + es;
    forall i | 0 <= i < |acc|
      ensures IsEntry(acc[i]) && acc[i].vs[0] != es[0].vs[0]
    {
      assert (acc + es)[i] == acc[i];
    }
    assert es[0] == Tuple([es[0].vs[0], es[0].vs[1]]);
    Appends(acc, es[0].vs[0], es[0].vs[1]);
  }

  lemma {:induction false} Appends(acc: seq<Value>, k: Value, v: Value)
    requires forall i :: 0 <= i < |acc| ==> IsEntry(acc[i]) && acc[i].vs[0] != k
    ensures SetIndex(acc, k, v) == acc + [Tuple([k, v])]
  {
    if acc == [] {
    } else {
      Appends(acc[1..], k, v);
    }
  }

  // ---------------------------------------------------------------- the round trip

  /**
    What the encoder writes for a stable list of values the decoder turns back into exactly those
    values, leaving exactly what follows, in both byte orders and from any position.
   */
  lemma WireRoundTrip(ts: seq<Ty>, vs: seq<Value>, order: Order, p: nat, w: bytes)
    requires AllWire(ts) && HaveTypes(vs, Each(ts)) && AllSendable(Each(ts), vs)
    requires AllEncodable(Each(ts), vs, 0) && AllStable(Each(ts), vs, order, p, p)
    requires |EncAll(Each(ts), vs, order, p, 0).written| < TWO_TO_THE_32
    ensures var e := EncAll(Each(ts), vs, order, p, 0);
            && e.ok
            && DecodeFields(PrintAll(ts), order, e.written + w, p, 0, []) == Got(vs, w, p + |e.written|)
  {
    AllStableAreWireFormat(Each(ts), vs, order, p, 0, 0);
    DecodesFields(ts, vs, order, p, 0, [], w);
    assert [] + vs == vs;
  }

  /** In particular every align-stable list of values survives. */
  lemma AlignStableRoundTrip(ts: seq<Ty>, vs: seq<Value>, order: Order)
    requires AllWire(ts) && HaveTypes(vs, Each(ts)) && AllSendable(Each(ts), vs)
    requires AllEncodable(Each(ts), vs, 0) && AllAlignStable(Each(ts), vs)
    requires |EncAll(Each(ts), vs, order, 0, 0).written| < TWO_TO_THE_32
    ensures var e := EncAll(Each(ts), vs, order, 0, 0);
            e.ok && DecodeFields(PrintAll(ts), order, e.written, 0, 0, []) == Got(vs, [], |e.written|)
  {
    AllAlignStableAreStable(Each(ts), vs, order, 0, 0);
    WireRoundTrip(ts, vs, order, 0, []);
    var e := EncAll(Each(ts), vs, order, 0, 0);
    assert e.written + [] == e.written;
  }

  // ---------------------------------------------------------------- an array that does not arrive

  const INT64S := Array(Basic('x'))

  lemma Int64s()
    ensures Print(INT64S) == "ax" && Exact("ax") && ElemSig("ax") == "x" && Wire(INT64S) && Wire(Array(INT64S))
  {
    ExactPrint(INT64S);
  }

  /** Decoding an array of int64 at an aligned position: length, padding to 8, elements. */
  lemma DecodeInt64s(order: Order, inp: bytes, p: nat)
    requires AlignUp(p, 4) == p && Exact("ax") && ElemSig("ax") == "x" && DecU32(order, inp, p).Got?
    ensures var n := DecU32(order, inp, p);
            var b := Skip(n.rest, n.pos, 8);
            && (b.Fail? ==> DecodeOne("ax", order, inp, p, 1) == Fail(b.error))
            && (b.Got? && n.v == 0 ==> DecodeOne("ax", order, inp, p, 1) == Got(List([]), b.rest, b.pos))
  {
    hide AlignUp, DecU32, Skip, ScanOne, ElemSig;
    SkipNothing(inp, p, 4);
    var n := DecU32(order, inp, p);
    var b := Skip(n.rest, n.pos, 8);
    if b.Got? && n.v == 0 {
      assert DecodeElems("x", order, b.rest, b.pos, b.pos + n.v, 2, []) == Got([], b.rest, b.pos);
      assert DecodeArray("ax", order, inp, p, 1) == Got(List([]), b.rest, b.pos);
    }
  }

  /** The encoder is back at 0 inside the outer array and pads to 8 there; the message stands at 8. */
  lemma EncodeNested(order: Order)
    ensures var v := List([List([])]);
            && HasType(v, Array(INT64S)) && Encodable(Array(INT64S), v, 0) && Sendable(Array(INT64S), v)
            && Enc(Array(INT64S), v, order, 0, 0) == Out(Framed(INT64S, U32(order, 0) + Zeros(4), order, 0), true)
  {
    hide U32, Framed;
    var inner := List([]);
    assert HasType(inner, INT64S) && HaveTypes([inner], Every(INT64S));
    assert Framed(Basic('x'), [], order, 0) == U32(order, 0) + Zeros(4) by {
      FramedEmpty(order);
    }
    var body := U32(order, 0) + Zeros(4);
    assert EncAll(Every(Basic('x')), [], order, 0, 2) == Out([], true);
    assert Enc(INT64S, inner, order, 0, 1) == Out(body, true);
    assert [inner][1..] == [] && body + [] == body;
    assert EncAll(Every(INT64S), [inner], order, 0, 1) == Out(body, true);
  }

  lemma FramedEmpty(order: Order)
    ensures Framed(Basic('x'), [], order, 0) == U32(order, 0) + Zeros(4)
  {
    hide U32, Zeros;
    var z := U32(order, 0);
    assert Pad(0, 4) == [] && Pad(4, 8) == Zeros(4);
    assert Zeros(4) + [] == Zeros(4) && [] + (z + Zeros(4)) == z + Zeros(4);
  }

  /** An array that holds one empty array of int64 is encodable but does not come back. */
  lemma UnstableDoesNotArrive(order: Order)
    ensures HasType(List([List([])]), Array(INT64S)) && Ready(Array(INT64S), List([List([])]), 0)
    ensures Exact(Print(Array(INT64S)))
    ensures DecodeOne(Print(Array(INT64S)), order, Enc(Array(INT64S), List([List([])]), order, 0, 0).written, 0, 0)
         == Fail(UnexpectedEOF)
  {
    hide Framed, Ready, Enc, AlignUp, ScanOne, DecodeOne, DecodeElems;
    NestedReady(order);
    EncodeNested(order);
    NestedElems(order);
    NestedHeader(order, U32(order, 0) + Zeros(4));
  }

  lemma NestedReady(order: Order)
    ensures HasType(List([List([])]), Array(INT64S)) && Ready(Array(INT64S), List([List([])]), 0)
  {
    EncodeNested(order);
    Int64s();
  }

  lemma Positions()
    ensures AlignUp(0, 4) == 0 && AlignUp(4, 4) == 4 && AlignUp(8, 4) == 8 && AlignUp(8, 8) == 8 && AlignUp(12, 8) == 16
    ensures DataStart(INT64S, 0) == 4
  {
  }

  /** The reader takes the four bytes of padding for the length of another element. */
  lemma NestedElems(order: Order)
    ensures Exact("ax")
    ensures DecodeElems("ax", order, U32(order, 0) + Zeros(4), 4, 12, 1, []) == Fail(UnexpectedEOF)
  {
    hide U32, DecU32, AlignUp, Skip, ScanOne, DecodeOne;
    var body := U32(order, 0) + Zeros(4);
    Int64s();
    Positions();
    assert DecodeOne("ax", order, body, 4, 1) == Got(List([]), Zeros(4), 8) by {
      ReadU32(order, 0, Zeros(4), 4);
      SkipNothing(body, 4, 4);
      SkipNothing(Zeros(4), 8, 8);
      DecodeInt64s(order, body, 4);
    }
    assert DecodeOne("ax", order, Zeros(4), 8, 1) == Fail(UnexpectedEOF) by {
      ReadZeros(order);
      DecodeInt64s(order, Zeros(4), 8);
    }
  }

  lemma ReadZeros(order: Order)
    ensures var n := DecU32(order, Zeros(4), 8);
            n.Got? && n.rest == [] && n.pos == 12 && Skip(n.rest, n.pos, 8) == Fail(UnexpectedEOF)
  {
    Positions();
    SkipNothing(Zeros(4), 8, 4);
  }

  lemma NestedHeader(order: Order, body: bytes)
    requires |body| == 8 && Exact("ax")
    requires DecodeElems("ax", order, body, 4, 12, 1, []) == Fail(UnexpectedEOF)
    ensures Exact(Print(Array(INT64S)))
    ensures DecodeOne(Print(Array(INT64S)), order, Framed(INT64S, body, order, 0), 0, 0) == Fail(UnexpectedEOF)
  {
    hide U32, DecU32, AlignUp, Skip, ScanOne, Framed, DecodeElems;
    Int64s();
    Positions();
    ExactPrint(Array(INT64S));
    var s := Print(Array(INT64S));
    assert s[0] == 'a' && s[1] == 'a' && s[1..] == "ax";
    ListHeader(INT64S, body, order, 0, []);
    assert body + [] == body && Framed(INT64S, body, order, 0) + [] == Framed(INT64S, body, order, 0);
  }
}
