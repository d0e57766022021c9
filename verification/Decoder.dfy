/** The decoder (decoder.go). */
module Decoding {
  import opened Bytes
  import opened Signature
  import opened Values

  datatype Error = UnexpectedEOF | BadBoolean | DepthLimit | BadKeyType
                 | EmptyVariant | ManyInVariant | BadSignature(error: SigError)

  /**
    What decoding comes to. An array loop that does not move on repeats itself forever; Stuck names
    the element signature it is stuck on.
   */
  datatype Dec<+T> = Got(v: T, rest: bytes, pos: nat) | Fail(error: Error) | Stuck(elem: bytes)
  {
    /** The same error or endless loop in place of another kind of value. */
    function Without<U>(): Dec<U>
      requires !Got?
    {
      if Fail? then Fail(error) else Stuck(elem)
    }

    /** The position has moved by exactly the number of bytes taken from inp. */
    predicate Follows(inp: bytes, p: nat)
    {
      Got? ==> |rest| <= |inp| && pos + |rest| == p + |inp|
    }
  }

  /** s is one complete type. */
  predicate Exact(s: bytes)
  {
    ScanOne(s, 0) == Rem([])
  }

  // ---------------------------------------------------------------- specification

  function Take(inp: bytes, p: nat, n: nat): (r: Dec<bytes>)
    ensures !r.Stuck? && r.Follows(inp, p)
  {
    if |inp| < n then Fail(UnexpectedEOF) else Got(inp[..n], inp[n..], p + n)
  }

  function Skip(inp: bytes, p: nat, n: nat): (r: Dec<bytes>)
    ensures !r.Stuck? && r.Follows(inp, p)
  {
    Take(inp, p, AlignUp(p, n) - p)
  }

  function DecU32(order: Order, inp: bytes, p: nat): (r: Dec<nat>)
    ensures !r.Stuck? && r.Follows(inp, p) && (r.Got? ==> |r.rest| < |inp|)
  {
    var a := Skip(inp, p, 4);
    if !a.Got? then a.Without() else
    var b := Take(a.rest, a.pos, 4);
    if !b.Got? then b.Without() else Got(Get(order, b.v), b.rest, b.pos)
  }

  /** n bytes and the NUL behind them. */
  function DecText(n: nat, inp: bytes, p: nat): (r: Dec<bytes>)
    ensures !r.Stuck? && r.Follows(inp, p)
  {
    var b := Take(inp, p, n + 1);
    if !b.Got? then b else Got(b.v[..n], b.rest, b.pos)
  }

  function DecString(order: Order, inp: bytes, p: nat): (r: Dec<bytes>)
    ensures !r.Stuck? && r.Follows(inp, p) && (r.Got? ==> |r.rest| < |inp|)
  {
    var n := DecU32(order, inp, p);
    if !n.Got? then n.Without() else DecText(n.v, n.rest, n.pos)
  }

  function DecSignature(inp: bytes, p: nat): (r: Dec<bytes>)
    ensures !r.Stuck? && r.Follows(inp, p) && (r.Got? ==> |r.rest| < |inp|)
  {
    var n := Take(inp, p, 1);
    if !n.Got? then n else
    var s := DecText(n.v[0] as int, n.rest, n.pos);
    if !s.Got? then s
    else if |s.v| > MAX_SIGNATURE then Fail(BadSignature(TooLong))
    else match ScanList(s.v, 0)
      case Bad(e) => Fail(BadSignature(e))
      case Rem(_) => s
  }

  /** The basic types other than variants, behind the padding. */
  function DecScalar(c: byte, order: Order, inp: bytes, p: nat): (r: Dec<Value>)
    requires IsBasic(c) && c != 'v'
    ensures !r.Stuck? && r.Follows(inp, p) && (r.Got? ==> |r.rest| < |inp|)
  {
    if c == 'b' then
      var n := DecU32(order, inp, p);
      if !n.Got? then n.Without()
      else if n.v > 1 then Fail(BadBoolean)
      else Got(Boolean(n.v == 1), n.rest, n.pos)
    else if c == 's' || c == 'o' then
      var s := DecString(order, inp, p);
      if !s.Got? then s.Without() else Got(Text(s.v), s.rest, s.pos)
    else if c == 'g' then
      var s := DecSignature(inp, p);
      if !s.Got? then s.Without() else Got(Sig(s.v), s.rest, s.pos)
    else
      var b := Take(inp, p, Size(c));
      if !b.Got? then b.Without() else Got(Num(FromBits(c, Get(order, b.v))), b.rest, b.pos)
  }

  /** The signature of a variant: exactly one complete type. */
  function DecVariantSignature(inp: bytes, p: nat): (r: Dec<bytes>)
    ensures !r.Stuck? && r.Follows(inp, p) && (r.Got? ==> |r.rest| < |inp| && Exact(r.v))
  {
    var s := DecSignature(inp, p);
    if !s.Got? then s
    else if s.v == [] then Fail(EmptyVariant)
    else match ScanOne(s.v, 0)
      case Bad(e) => Fail(BadSignature(e))
      case Rem(rem) => if rem != [] then Fail(ManyInVariant) else s
  }

  /** A dict signature: the key's letter, then the value's signature. */
  function DictSig(s: bytes): (kv: bytes)
    requires Exact(s) && |s| > 1 && s[0] == 'a' && s[1] == '{'
    ensures |s| > 3 && kv == s[2..|s| - 1] && 1 < |kv| < |s| && IsBasic(kv[0]) && Exact(kv[1..]) && Exact(kv[..1])
  {
    var kv := EntryOf(s[1..], 1);
    ExactAnywhere(kv[1..], 1);
    assert s[1..] == ['{'] + (kv + ['}']);
    assert s[2..|s| - 1] == kv;
    kv
  }

  function ElemSig(s: bytes): (e: bytes)
    requires Exact(s) && s[0] == 'a' && !(|s| > 1 && s[1] == '{')
    ensures e == s[1..] && Exact(e)
  {
    Letter(s, 0);
    ExactAnywhere(s[1..], 1);
    s[1..]
  }

  function FieldSigs(s: bytes): (fs: bytes)
    requires Exact(s) && s[0] == '('
    ensures |s| >= 2 && fs == s[1..|s| - 1]
  {
    var fs := FieldsOf(s, 0);
    assert s == ['('] + fs + [')'];
    fs
  }

  /** One complete type off the front of a signature. */
  function HeadSig(s: bytes): (h: bytes)
    requires ScanOne(s, 0).Rem?
    ensures h == s[..|s| - |ScanOne(s, 0).rem|] && 0 < |h| <= |s| && Exact(h)
  {
    TypeForPrints(s, 0);
    var t := TypeFor(s, 0);
    ScanPrint(t, [], 0);
    assert Print(t) + [] == Print(t);
    s[..|s| - |ScanOne(s, 0).rem|]
  }

  /** A complete type stays one at a lower depth. */
  lemma ExactAnywhere(s: bytes, depth: nat)
    requires ScanOne(s, depth) == Rem([])
    ensures Exact(s)
  {
    TypeForPrints(s, depth);
    ScanPrint(TypeFor(s, depth), [], 0);
  }

  /** decode: one value of the complete type s. */
  function DecodeOne(s: bytes, order: Order, inp: bytes, p: nat, depth: nat): (r: Dec<Value>)
    requires Exact(s)
    ensures r.Follows(inp, p) && (r.Got? && IsBasic(s[0]) ==> |r.rest| < |inp|)
    decreases |inp|, |s|, 3
  {
    var a := Skip(inp, p, LetterAlignment(s[0]));
    if !a.Got? then a.Without()
    else if s[0] == 'v' then DecodeVariant(order, a.rest, a.pos, depth)
    else if IsBasic(s[0]) then DecScalar(s[0], order, a.rest, a.pos)
    else if s[0] == 'a' && |s| > 1 && s[1] == '{' then DecodeDict(s, order, a.rest, a.pos, depth)
    else if s[0] == 'a' then DecodeArray(s, order, a.rest, a.pos, depth)
    else
      Letter(s, 0);
      DecodeStruct(s, order, a.rest, a.pos, depth)
  }

  function DecodeVariant(order: Order, inp: bytes, p: nat, depth: nat): (r: Dec<Value>)
    ensures r.Follows(inp, p) && (r.Got? ==> |r.rest| < |inp|)
    decreases |inp|, 0, 2
  {
    if depth >= MAX_DEPTH then Fail(DepthLimit) else
    var sig := DecVariantSignature(inp, p);
    if !sig.Got? then sig.Without() else
    var v := DecodeOne(sig.v, order, sig.rest, sig.pos, depth + 1);
    if !v.Got? then v else Got(Variant(TypeFor(sig.v, 0), v.v), v.rest, v.pos)
  }

  function DecodeDict(s: bytes, order: Order, inp: bytes, p: nat, depth: nat): (r: Dec<Value>)
    requires Exact(s) && |s| > 1 && s[0] == 'a' && s[1] == '{'
    ensures r.Follows(inp, p)
    decreases |inp|, |s|, 2
  {
    var kv := DictSig(s);
    if depth >= MAX_DEPTH - 1 then Fail(DepthLimit) else
    var n := DecU32(order, inp, p);
    if !n.Got? then n.Without() else
    var b := Skip(n.rest, n.pos, 8);
    if !b.Got? then b.Without() else
    var es := DecodeEntries(kv[..1], kv[1..], order, b.rest, b.pos, b.pos + n.v, depth + 2, []);
    if !es.Got? then es.Without() else Got(List(es.v), es.rest, es.pos)
  }

  function DecodeArray(s: bytes, order: Order, inp: bytes, p: nat, depth: nat): (r: Dec<Value>)
    requires Exact(s) && s[0] == 'a' && !(|s| > 1 && s[1] == '{')
    ensures r.Follows(inp, p)
    decreases |inp|, |s|, 2
  {
    var e := ElemSig(s);
    if depth >= MAX_DEPTH then Fail(DepthLimit) else
    var n := DecU32(order, inp, p);
    if !n.Got? then n.Without() else
    var b := Skip(n.rest, n.pos, LetterAlignment(e[0]));
    if !b.Got? then b.Without() else
    var vs := DecodeElems(e, order, b.rest, b.pos, b.pos + n.v, depth + 1, []);
    if !vs.Got? then vs.Without() else Got(List(vs.v), vs.rest, vs.pos)
  }

  function DecodeStruct(s: bytes, order: Order, inp: bytes, p: nat, depth: nat): (r: Dec<Value>)
    requires Exact(s) && s[0] == '('
    ensures r.Follows(inp, p)
    decreases |inp|, |s|, 2
  {
    if depth >= MAX_DEPTH then Fail(DepthLimit) else
    var vs := DecodeFields(FieldSigs(s), order, inp, p, depth + 1, []);
    if !vs.Got? then vs.Without() else Got(Tuple(vs.v), vs.rest, vs.pos)
  }

  /** The values of a whole signature: of a message body, or the fields of a struct. */
  function DecodeFields(s: bytes, order: Order, inp: bytes, p: nat, depth: nat, acc: seq<Value>): (r: Dec<seq<Value>>)
    ensures r.Follows(inp, p)
    decreases |inp|, |s|, 4
  {
    if s == [] then Got(acc, inp, p) else
    match ScanOne(s, 0)
    case Bad(e) => Fail(BadSignature(e))
    case Rem(rem) =>
      var v := DecodeOne(HeadSig(s), order, inp, p, depth);
      if !v.Got? then v.Without() else DecodeFields(rem, order, v.rest, v.pos, depth, acc + [v.v])
  }

  /** The elements of an array, up to the position where they end. */
  function DecodeElems(e: bytes, order: Order, inp: bytes, p: nat, end: nat, depth: nat, acc: seq<Value>)
    : (r: Dec<seq<Value>>)
    requires Exact(e)
    ensures r.Follows(inp, p)
    decreases |inp|, |e|, 4
  {
    if p >= end then Got(acc, inp, p) else
    var v := DecodeOne(e, order, inp, p, depth);
    if !v.Got? then v.Without()
    else if v.pos == p then Stuck(e)
    else DecodeElems(e, order, v.rest, v.pos, end, depth, acc + [v.v])
  }

  /** The entries of a dict, up to the position where they end. */
  function DecodeEntries(k: bytes, e: bytes, order: Order, inp: bytes, p: nat, end: nat, depth: nat, acc: seq<Value>)
    : (r: Dec<seq<Value>>)
    requires Exact(k) && |k| == 1 && IsBasic(k[0]) && Exact(e)
    ensures r.Follows(inp, p)
    decreases |inp|, |e|, 4
  {
    if p >= end then Got(acc, inp, p) else
    var a := Skip(inp, p, 8);
    if !a.Got? then a.Without()
    else if !IsKey(k[0]) then Fail(BadKeyType) else
    var kv := DecodeOne(k, order, a.rest, a.pos, depth);
    if !kv.Got? then kv.Without() else
    var vv := DecodeOne(e, order, kv.rest, kv.pos, depth);
    if !vv.Got? then vv.Without() else
    DecodeEntries(k, e, order, vv.rest, vv.pos, end, depth, SetIndex(acc, kv.v, vv.v))
  }

  /** SetMapIndex on entries kept in the order their keys first came. */
  function SetIndex(es: seq<Value>, k: Value, v: Value): seq<Value>
  {
    if es == [] then [Tuple([k, v])]
    else if IsEntry(es[0]) && es[0].vs[0] == k then [Tuple([k, v])] + es[1..]
    else [es[0]] + SetIndex(es[1..], k, v)
  }

  // ---------------------------------------------------------------- the decoder as written

  class Decoder {
    const order: Order
    var input: bytes
    var pos: nat

    constructor (order: Order, input: bytes, pos: nat)
      ensures this.order == order && this.input == input && this.pos == pos
    {
      this.order, this.input, this.pos := order, input, pos;
    }

    /** A read of n bytes. After an error the decoder is not used again. */
    method Read(n: nat) returns (r: Dec<bytes>)
      modifies this
      ensures r == Take(old(input), old(pos), n)
      ensures r.Got? ==> input == r.rest && pos == r.pos
    {
      if |input| < n {
        return Fail(UnexpectedEOF);
      }
      r := Got(input[..n], input[n..], pos + n);
      input, pos := input[n..], pos + n;
    }

    method Align(n: nat) returns (r: Dec<bytes>)
      modifies this
      ensures r == Skip(old(input), old(pos), n)
      ensures r.Got? ==> input == r.rest && pos == r.pos
    {
      var newpos := AlignUp(pos, n);
      r := Read(newpos - pos);
    }

    method ReadUint32() returns (r: Dec<nat>)
      modifies this
      ensures r == DecU32(order, old(input), old(pos))
      ensures r.Got? ==> input == r.rest && pos == r.pos
    {
      var a := Align(4);
      if !a.Got? {
        return a.Without();
      }
      var b := Read(4);
      r := if !b.Got? then b.Without() else Got(Get(order, b.v), b.rest, b.pos);
    }

    method ReadText(n: nat) returns (r: Dec<bytes>)
      modifies this
      ensures r == DecText(n, old(input), old(pos))
      ensures r.Got? ==> input == r.rest && pos == r.pos
    {
      var b := Read(n + 1);
      r := if !b.Got? then b else Got(b.v[..|b.v| - 1], b.rest, b.pos);
    }

    method ReadSignature() returns (r: Dec<bytes>)
      modifies this
      ensures r == DecSignature(old(input), old(pos))
      ensures r.Got? ==> input == r.rest && pos == r.pos
    {
      var n := Read(1);
      if !n.Got? {
        return n;
      }
      r := ReadText(n.v[0] as int);
      if r.Got? {
        if |r.v| > MAX_SIGNATURE {
          return Fail(BadSignature(TooLong));
        }
        var bad := ScanList(r.v, 0);
        if bad.Bad? {
          return Fail(BadSignature(bad.error));
        }
      }
    }

    method DecodeScalar(c: byte) returns (r: Dec<Value>)
      requires IsBasic(c) && c != 'v'
      modifies this
      ensures r == DecScalar(c, order, old(input), old(pos))
      ensures r.Got? ==> input == r.rest && pos == r.pos
    {
      if c == 'b' {
        var n := ReadUint32();
        r := if !n.Got? then n.Without()
             else if n.v == 0 then Got(Boolean(false), n.rest, n.pos)
             else if n.v == 1 then Got(Boolean(true), n.rest, n.pos)
             else Fail(BadBoolean);
      } else if c == 's' || c == 'o' {
        var n := ReadUint32();
        if !n.Got? {
          return n.Without();
        }
        var s := ReadText(n.v);
        r := if !s.Got? then s.Without() else Got(Text(s.v), s.rest, s.pos);
      } else if c == 'g' {
        var s := ReadSignature();
        r := if !s.Got? then s.Without() else Got(Sig(s.v), s.rest, s.pos);
      } else {
        var b := Read(Size(c));
        r := if !b.Got? then b.Without() else Got(Num(FromBits(c, Get(order, b.v))), b.rest, b.pos);
      }
    }

    /** decode. */
    method Decode(s: bytes, depth: nat) returns (r: Dec<Value>)
      requires Exact(s)
      modifies this
      ensures r == DecodeOne(s, order, old(input), old(pos), depth)
      ensures r.Got? ==> input == r.rest && pos == r.pos
      decreases |input|, |s|, 3
    {
      hide DecodeVariant, DecodeArray, DecodeDict, DecodeStruct, DecScalar;
      var a := Align(LetterAlignment(s[0]));
      if !a.Got? {
        return a.Without();
      }
      if s[0] == 'v' {
        r := ReadVariant(depth);
      } else if IsBasic(s[0]) {
        r := DecodeScalar(s[0]);
      } else if s[0] == 'a' && |s| > 1 && s[1] == '{' {
        r := ReadDict(s, depth);
      } else if s[0] == 'a' {
        r := ReadArray(s, depth);
      } else {
        Letter(s, 0);
        r := ReadStruct(s, depth);
      }
    }

    method ReadVariant(depth: nat) returns (r: Dec<Value>)
      modifies this
      ensures r == DecodeVariant(order, old(input), old(pos), depth)
      ensures r.Got? ==> input == r.rest && pos == r.pos
      decreases |input|, 0, 2
    {
      hide DecodeOne, ScanOne, ScanList, TypeFor;
      if depth >= MAX_DEPTH {
        return Fail(DepthLimit);
      }
      var sig := ReadVariantSignature();
      if !sig.Got? {
        return sig.Without();
      }
      var v := Decode(sig.v, depth + 1);
      r := if !v.Got? then v else Got(Variant(TypeFor(sig.v, 0), v.v), v.rest, v.pos);
    }

    method ReadVariantSignature() returns (r: Dec<bytes>)
      modifies this
      ensures r == DecVariantSignature(old(input), old(pos))
      ensures r.Got? ==> input == r.rest && pos == r.pos
    {
      r := ReadSignature();
      if r.Got? {
        if r.v == [] {
          return Fail(EmptyVariant);
        }
        var one := ValidSingle(r.v, 0);
        if one.Bad? {
          return Fail(BadSignature(one.error));
        }
        if one.rem != [] {
          return Fail(ManyInVariant);
        }
      }
    }

    method ReadStruct(s: bytes, depth: nat) returns (r: Dec<Value>)
      requires Exact(s) && s[0] == '('
      modifies this
      ensures r == DecodeStruct(s, order, old(input), old(pos), depth)
      ensures r.Got? ==> input == r.rest && pos == r.pos
      decreases |input|, |s|, 2
    {
      hide DecodeFields, ScanOne;
      if depth >= MAX_DEPTH {
        return Fail(DepthLimit);
      }
      var vs := DecodeAll(FieldSigs(s), depth + 1);
      r := if !vs.Got? then vs.Without() else Got(Tuple(vs.v), vs.rest, vs.pos);
    }

    /** Decode, and the loop over the fields of a struct. */
    method DecodeAll(s: bytes, depth: nat) returns (r: Dec<seq<Value>>)
      modifies this
      ensures r == DecodeFields(s, order, old(input), old(pos), depth, [])
      ensures r.Got? ==> input == r.rest && pos == r.pos
      decreases |input|, |s|, 4
    {
      hide DecodeOne, Exact, HeadSig;
      var rest := s;
      var vs: seq<Value> := [];
      while rest != []
        invariant |input| <= |old(input)| && |rest| <= |s|
        invariant DecodeFields(s, order, old(input), old(pos), depth, [])
               == DecodeFields(rest, order, input, pos, depth, vs)
        decreases |rest|
      {
        var one := ValidSingle(rest, 0);
        if one.Bad? {
          return Fail(BadSignature(one.error));
        }
        var v := Decode(HeadSig(rest), depth);
        if !v.Got? {
          return v.Without();
        }
        vs := vs + [v.v];
        rest := one.rem;
      }
      r := Got(vs, input, pos);
    }

    method ReadArray(s: bytes, depth: nat) returns (r: Dec<Value>)
      requires Exact(s) && s[0] == 'a' && !(|s| > 1 && s[1] == '{')
      modifies this
      ensures r == DecodeArray(s, order, old(input), old(pos), depth)
      ensures r.Got? ==> input == r.rest && pos == r.pos
      decreases |input|, |s|, 2
    {
      hide DecodeOne, ScanOne;
      var e := ElemSig(s);
      if depth >= MAX_DEPTH {
        return Fail(DepthLimit);
      }
      var n := ReadUint32();
      if !n.Got? {
        return n.Without();
      }
      var b := Align(LetterAlignment(e[0]));
      if !b.Got? {
        return b.Without();
      }
      var vs := ReadElems(e, pos + n.v, depth + 1);
      r := if !vs.Got? then vs.Without() else Got(List(vs.v), vs.rest, vs.pos);
    }

    method ReadElems(e: bytes, end: nat, depth: nat) returns (r: Dec<seq<Value>>)
      requires Exact(e)
      modifies this
      ensures r == DecodeElems(e, order, old(input), old(pos), end, depth, [])
      ensures r.Got? ==> input == r.rest && pos == r.pos
      decreases |input|, |e|, 4
    {
      hide DecodeOne, Exact;
      var vs: seq<Value> := [];
      while pos < end
        invariant |input| <= |old(input)|
        invariant DecodeElems(e, order, old(input), old(pos), end, depth, [])
               == DecodeElems(e, order, input, pos, end, depth, vs)
        decreases |input|
      {
        var p := pos;
        var v := Decode(e, depth);
        if !v.Got? {
          return v.Without();
        }
        if v.pos == p {
          return Stuck(e);
        }
        vs := vs + [v.v];
      }
      r := Got(vs, input, pos);
    }

    method ReadDict(s: bytes, depth: nat) returns (r: Dec<Value>)
      requires Exact(s) && |s| > 1 && s[0] == 'a' && s[1] == '{'
      modifies this
      ensures r == DecodeDict(s, order, old(input), old(pos), depth)
      ensures r.Got? ==> input == r.rest && pos == r.pos
      decreases |input|, |s|, 2
    {
      hide DecodeOne, ScanOne;
      var ksig, vsig := DictSig(s)[..1], DictSig(s)[1..];
      if depth >= MAX_DEPTH - 1 {
        return Fail(DepthLimit);
      }
      var n := ReadUint32();
      if !n.Got? {
        return n.Without();
      }
      var b := Align(8);
      if !b.Got? {
        return b.Without();
      }
      var es := ReadEntries(ksig, vsig, pos + n.v, depth + 2);
      r := if !es.Got? then es.Without() else Got(List(es.v), es.rest, es.pos);
    }

    method ReadEntries(ksig: bytes, vsig: bytes, end: nat, depth: nat) returns (r: Dec<seq<Value>>)
      requires Exact(ksig) && |ksig| == 1 && IsBasic(ksig[0]) && Exact(vsig)
      modifies this
      ensures r == DecodeEntries(ksig, vsig, order, old(input), old(pos), end, depth, [])
      ensures r.Got? ==> input == r.rest && pos == r.pos
      decreases |input|, |vsig|, 4
    {
      hide DecodeOne, ScanOne, SetIndex, Skip, AlignUp;
      var es: seq<Value> := [];
      while pos < end
        invariant |input| <= |old(input)|
        invariant DecodeEntries(ksig, vsig, order, old(input), old(pos), end, depth, [])
               == DecodeEntries(ksig, vsig, order, input, pos, end, depth, es)
        decreases |input|
      {
        var a := Align(8);
        if !a.Got? {
          return a.Without();
        }
        if !IsKey(ksig[0]) {
          return Fail(BadKeyType);
        }
        var kv := Decode(ksig, depth);
        if !kv.Got? {
          return kv.Without();
        }
        var vv := Decode(vsig, depth);
        if !vv.Got? {
          return vv.Without();
        }
        es := SetIndex(es, kv.v, vv.v);
      }
      r := Got(es, input, pos);
    }
  }
}
