/** Messages: validity, encoding and decoding (message.go). */
module Messages {
  import opened Bytes
  import opened Signature
  import opened Values
  import opened Encoding
  import opened Agreement
  import opened Decoding
  import opened RoundTrip
  import opened Names

  const MAX_MESSAGE := 0x800_0000  // 1 << 27
  const PROTO_VERSION := 1

  // HeaderField codes
  const FIELD_PATH := 1
  const FIELD_INTERFACE := 2
  const FIELD_MEMBER := 3
  const FIELD_ERROR_NAME := 4
  const FIELD_REPLY_SERIAL := 5
  const FIELD_SIGNATURE := 8
  const FIELD_MAX := 10

  /** A message. The body comes with the types of its values, as []interface{} does. */
  datatype Message = Message(
    typ: nat,
    flags: nat,
    serial: nat,
    headers: map<nat, Value>,
    types: seq<Ty>,
    body: seq<Value>)

  /** Panicked: the padding in front of the body cannot be read, which nothing recovers from. */
  datatype MessageError = InvalidMessage | MessageTooLong | InvalidByteOrder | StoreMismatch
                        | WireError(e: Error) | Endless(elem: bytes) | Panicked

  datatype Result<+T> = Ok(v: T) | Err(e: MessageError)

  // ---------------------------------------------------------------- validity

  /** fieldTypes. */
  function FieldType(k: nat): byte
  {
    if k == FIELD_PATH then 'o'
    else if k == FIELD_REPLY_SERIAL || k == 9 then 'u'
    else if k == FIELD_SIGNATURE then 'g'
    else 's'
  }

  /** requiredFields. */
  function Required(typ: nat): set<nat>
  {
    if typ == 1 then {FIELD_PATH, FIELD_MEMBER}
    else if typ == 2 then {FIELD_REPLY_SERIAL}
    else if typ == 3 then {FIELD_ERROR_NAME, FIELD_REPLY_SERIAL}
    else {FIELD_PATH, FIELD_INTERFACE, FIELD_MEMBER}
  }

  /** What Go's types say of a message. */
  predicate Typed(m: Message)
  {
    && m.typ < 256 && m.flags < 256 && m.serial < TWO_TO_THE_32
    && (forall k :: k in m.headers ==> k < 256 && HasType(m.headers[k], Basic('v')))
    && HaveTypes(m.body, Each(m.types))
  }

  /** The header field is known and its variant holds a value of the field's type. */
  predicate IsField(k: nat, v: Value)
  {
    0 < k < FIELD_MAX && v.Variant? && v.ty == Basic(FieldType(k)) && HasType(v.v, v.ty)
  }

  /** The text of a header field that holds a name. */
  function Name(k: nat, v: Value): bytes
    requires IsField(k, v) && 1 <= k <= 4
  {
    v.v.s
  }

  predicate NamesValid(m: Message)
    requires forall k :: k in m.headers ==> IsField(k, m.headers[k])
  {
    && (FIELD_PATH in m.headers ==> IsValidPath(Name(FIELD_PATH, m.headers[FIELD_PATH])))
    && (FIELD_INTERFACE in m.headers ==> IsValidInterface(Name(FIELD_INTERFACE, m.headers[FIELD_INTERFACE])))
    && (FIELD_MEMBER in m.headers ==> IsValidMember(Name(FIELD_MEMBER, m.headers[FIELD_MEMBER])))
    && (FIELD_ERROR_NAME in m.headers ==> IsValidInterface(Name(FIELD_ERROR_NAME, m.headers[FIELD_ERROR_NAME])))
  }

  /** Message.IsValid. */
  predicate IsValid(m: Message)
  {
    && m.flags < 4
    && 0 < m.typ < 5
    && (forall k :: k in m.headers ==> IsField(k, m.headers[k]))
    && Required(m.typ) <= m.headers.Keys
    && NamesValid(m)
    && (m.body != [] ==> FIELD_SIGNATURE in m.headers)
  }

  /** IsValid as written. */
  method CheckMessage(m: Message) returns (ok: bool)
    ensures ok == IsValid(m)
  {
    if m.flags >= 4 {
      return false;
    }
    if m.typ == 0 || m.typ >= 5 {
      return false;
    }
    var keys := m.headers.Keys;
    while keys != {}
      invariant keys <= m.headers.Keys
      invariant forall k :: k in m.headers.Keys - keys ==> IsField(k, m.headers[k])
      decreases |keys|
    {
      var k :| k in keys;
      if !IsField(k, m.headers[k]) {
        return false;
      }
      keys := keys - {k};
    }
    var required := Required(m.typ);
    while required != {}
      invariant forall k :: k in Required(m.typ) && k !in required ==> k in m.headers
      invariant required <= Required(m.typ)
      decreases |required|
    {
      var k :| k in required;
      if k !in m.headers {
        return false;
      }
      required := required - {k};
    }
    ok := CheckNames(m);
    if ok && m.body != [] && FIELD_SIGNATURE !in m.headers {
      return false;
    }
  }

  method CheckNames(m: Message) returns (ok: bool)
    requires forall k :: k in m.headers ==> IsField(k, m.headers[k])
    ensures ok == NamesValid(m)
  {
    hide IsValidPath, IsValidInterface, IsValidMember;
    ok := true;
    if FIELD_PATH in m.headers {
      ok := CheckPath(Name(FIELD_PATH, m.headers[FIELD_PATH]));
    }
    if ok && FIELD_INTERFACE in m.headers {
      ok := CheckInterface(Name(FIELD_INTERFACE, m.headers[FIELD_INTERFACE]));
    }
    if ok && FIELD_MEMBER in m.headers {
      ok := CheckMember(Name(FIELD_MEMBER, m.headers[FIELD_MEMBER]));
    }
    if ok && FIELD_ERROR_NAME in m.headers {
      ok := CheckInterface(Name(FIELD_ERROR_NAME, m.headers[FIELD_ERROR_NAME]));
    }
  }

  // ---------------------------------------------------------------- encoding

  const HEADER := Struct([Basic('y'), Basic('v')])
  const HEADERS := Array(HEADER)
  const FIXED: seq<Ty> := [Basic('y'), Basic('y'), Basic('y'), Basic('u'), Basic('u')]

  function OrderByte(order: Order): byte
  {
    if order.Little? then 'l' else 'B'
  }

  /** The headers in the order in which the map is ranged over. */
  function HeaderList(headers: map<nat, Value>, keys: seq<nat>): seq<Value>
    requires forall k :: k in keys ==> k in headers
  {
    if keys == [] then [] else
    [Tuple([Num(keys[0]), headers[keys[0]]])] + HeaderList(headers, keys[1..])
  }

  /** A range over a map visits every key once. */
  ghost predicate Ranges(headers: map<nat, Value>, keys: seq<nat>)
  {
    && (forall k :: k in headers <==> k in keys)
    && (forall i, j :: 0 <= i < j < |keys| ==> keys[i] != keys[j])
  }

  lemma {:induction false} HeadersTyped(headers: map<nat, Value>, keys: seq<nat>)
    requires forall k :: k in keys ==> k in headers && k < 256 && HasType(headers[k], Basic('v'))
    ensures HaveTypes(HeaderList(headers, keys), Every(HEADER))
  {
    if keys == [] {
    } else {
      HeadersTyped(headers, keys[1..]);
      HeaderTyped(keys[0], headers[keys[0]]);
    }
  }

  lemma HeaderTyped(k: nat, v: Value)
    requires k < 256 && HasType(v, Basic('v'))
    ensures HasType(Tuple([Num(k), v]), HEADER)
  {
    assert Pow256(1) == 256;
    TwoTyped(Num(k), Basic('y'), v, Basic('v'));
  }

  function FixedValues(m: Message, length: nat): seq<Value>
  {
    [Num(m.typ), Num(m.flags), Num(PROTO_VERSION), Num(length % TWO_TO_THE_32), Num(m.serial)]
  }

  const PROLOGUE: seq<Ty> := [Basic('y')] + FIXED + [HEADERS]

  /** The seven values that EncodeTo encodes before the body. */
  function Prologue(m: Message, order: Order, keys: seq<nat>, length: nat): seq<Value>
    requires forall k :: k in keys ==> k in m.headers
  {
    [Num(OrderByte(order) as int)] + FixedValues(m, length) + [List(HeaderList(m.headers, keys))]
  }

  lemma {:induction false} TypesConcat(ts: seq<Ty>, us: seq<Ty>, vs: seq<Value>, ws: seq<Value>)
    requires HaveTypes(vs, Each(ts)) && HaveTypes(ws, Each(us))
    ensures HaveTypes(vs + ws, Each(ts + us))
  {
    if vs == [] {
      assert vs + ws == ws && ts + us == us;
    } else {
      TypesConcat(ts[1..], us, vs[1..], ws);
      assert (vs + ws)[1..] == vs[1..] + ws && (ts + us)[1..] == ts[1..] + us;
    }
  }

  lemma OneTyped(v: Value, t: Ty)
    requires HasType(v, t)
    ensures HaveTypes([v], Each([t]))
  {
    assert [v][1..] == [] && [t][1..] == [];
  }

  lemma TwoTyped(v: Value, t: Ty, w: Value, u: Ty)
    requires HasType(v, t) && HasType(w, u)
    ensures HaveTypes([v, w], Each([t, u]))
  {
    OneTyped(w, u);
    assert [v, w][1..] == [w] && [t, u][1..] == [u];
  }

  lemma FixedTyped(m: Message, length: nat)
    requires Typed(m)
    ensures HaveTypes(FixedValues(m, length), Each(FIXED))
  {
    Limit32();
    assert Pow256(1) == 256;
    var vs := FixedValues(m, length);
    TwoTyped(vs[0], Basic('y'), vs[1], Basic('y'));
    TwoTyped(vs[3], Basic('u'), vs[4], Basic('u'));
    OneTyped(vs[2], Basic('y'));
    TypesConcat([Basic('y'), Basic('y')], [Basic('y')], [vs[0], vs[1]], [vs[2]]);
    TypesConcat([Basic('y'), Basic('y')] + [Basic('y')], [Basic('u'), Basic('u')], [vs[0], vs[1]] + [vs[2]], [vs[3], vs[4]]);
    assert vs == ([vs[0], vs[1]] + [vs[2]]) + [vs[3], vs[4]];
    assert FIXED == ([Basic('y'), Basic('y')] + [Basic('y')]) + [Basic('u'), Basic('u')];
  }

  lemma PrologueTyped(m: Message, order: Order, keys: seq<nat>, length: nat)
    requires Typed(m) && forall k :: k in keys ==> k in m.headers
    ensures HaveTypes(Prologue(m, order, keys, length), Each(PROLOGUE))
  {
    HeadersTyped(m.headers, keys);
    FixedTyped(m, length);
    var first, hs := [Num(OrderByte(order) as int)], [List(HeaderList(m.headers, keys))];
    assert Pow256(1) == 256;
    OneTyped(first[0], Basic('y'));
    OneTyped(hs[0], HEADERS);
    TypesConcat([Basic('y')], FIXED, first, FixedValues(m, length));
    TypesConcat([Basic('y')] + FIXED, [HEADERS], first + FixedValues(m, length), hs);
  }

  /** EncodeTo, with the header map ranged over in the order of keys. */
  function EncodeMessage(m: Message, order: Order, keys: seq<nat>): Result<bytes>
    requires Typed(m) && forall k :: k in keys ==> k in m.headers
  {
    if !IsValid(m) then Err(InvalidMessage) else
    var body := EncAll(Each(m.types), m.body, order, 0, 0).written;
    PrologueTyped(m, order, keys, |body|);
    var head := EncAll(Each(PROLOGUE), Prologue(m, order, keys, |body|), order, 0, 0).written;
    var buf := head + Pad(|head|, 8) + body;
    if |buf| > MAX_MESSAGE then Err(MessageTooLong) else Ok(buf)
  }

  method EncodeTo(m: Message, order: Order, keys: seq<nat>) returns (r: Result<bytes>)
    requires Typed(m) && forall k :: k in keys ==> k in m.headers
    ensures r == EncodeMessage(m, order, keys)
  {
    hide EncAll, IsValid;
    var valid := CheckMessage(m);
    if !valid {
      return Err(InvalidMessage);
    }
    var enc := new Encoder(order);
    var _ := enc.EncodeAll(Each(m.types), m.body, 0);
    var body := enc.out;
    assert body == EncAll(Each(m.types), m.body, order, 0, 0).written;
    PrologueTyped(m, order, keys, |body|);
    enc := new Encoder(order);
    var _ := enc.EncodeAll(Each(PROLOGUE), Prologue(m, order, keys, |body|), 0);
    assert enc.out == EncAll(Each(PROLOGUE), Prologue(m, order, keys, |body|), order, 0, 0).written;
    enc.Align(8);
    var buf := enc.out + body;
    r := if |buf| > MAX_MESSAGE then Err(MessageTooLong) else Ok(buf);
  }

  /** An error of the encoder is ignored: the body is encodable exactly when its encoding is complete, but in any case what
      was written of it is sent, and the only error of a valid message is its length. */
  lemma BodyIsSentAnyway(m: Message, order: Order, keys: seq<nat>)
    requires Typed(m) && IsValid(m) && forall k :: k in keys ==> k in m.headers
    ensures var r, body := EncodeMessage(m, order, keys), EncAll(Each(m.types), m.body, order, 0, 0);
            && (body.ok <==> AllEncodable(Each(m.types), m.body, 0))
            && (if r.Ok? then |body.written| <= |r.v| && r.v[|r.v| - |body.written|..] == body.written
                else r.e == MessageTooLong)
  {
    hide EncAll, AllEncodable, IsValid;
    EncodeAllExactly(Each(m.types), m.body, order, 0, 0);
  }

  /** A map with keys that D-Bus does not allow is left out without an error: the message goes out as if it had no body. */
  lemma RefusedBodyIsDropped(m: Message, order: Order, keys: seq<nat>)
    requires Typed(m) && IsValid(m) && forall k :: k in keys ==> k in m.headers
    requires m.types == [Dict('v', Basic('y'))] && m.body == [List([])]
    ensures !AllEncodable(Each(m.types), m.body, 0)
    ensures Typed(m.(types := [], body := [])) &&
            EncodeMessage(m, order, keys) == EncodeMessage(m.(types := [], body := []), order, keys)
  {
    hide IsValid, Prologue;
    assert EncAll(Each(m.types), m.body, order, 0, 0).written == [];
    var none := m.(types := [], body := []);
    StillValid(m, none);
    assert Prologue(m, order, keys, 0) == Prologue(none, order, keys, 0) by { SamePrologue(m, none, order, keys); }
  }

  lemma StillValid(m: Message, n: Message)
    requires IsValid(m) && n == m.(types := [], body := [])
    ensures IsValid(n)
  {
  }

  lemma SamePrologue(m: Message, n: Message, order: Order, keys: seq<nat>)
    requires n == m.(types := [], body := []) && forall k :: k in keys ==> k in m.headers
    ensures Prologue(m, order, keys, 0) == Prologue(n, order, keys, 0)
  {
  }

  /** Such a message: a reply with the signature of the map. */
  const REFUSED := Message(2, 0, 1,
    map[FIELD_REPLY_SERIAL := Variant(Basic('u'), Num(1)), FIELD_SIGNATURE := Variant(Basic('g'), Sig("a{vy}"))],
    [Dict('v', Basic('y'))], [List([])])

  lemma RefusedIsValid(order: Order)
    ensures Typed(REFUSED) && IsValid(REFUSED) && !AllEncodable(Each(REFUSED.types), REFUSED.body, 0)
    ensures forall k :: k in [FIELD_REPLY_SERIAL, FIELD_SIGNATURE] ==> k in REFUSED.headers
    ensures EncodeMessage(REFUSED, order, [FIELD_REPLY_SERIAL, FIELD_SIGNATURE])
         == EncodeMessage(REFUSED.(types := [], body := []), order, [FIELD_REPLY_SERIAL, FIELD_SIGNATURE])
  {
    hide EncodeMessage, AllEncodable;
    Limit32();
    RefusedBodyIsDropped(REFUSED, order, [FIELD_REPLY_SERIAL, FIELD_SIGNATURE]);
  }

  // ---------------------------------------------------------------- decoding

  const FIXED_SIG: bytes := "yyyuu"
  const HEADERS_SIG: bytes := "a(yv)"

  /** Store into the five fixed fields. */
  predicate IsFixed(vs: seq<Value>)
  {
    |vs| == 5 && forall i :: 0 <= i < 5 ==> vs[i].Num? && vs[i].n >= 0
  }

  /** Store into a list of headers. */
  predicate IsHeaders(vs: seq<Value>)
  {
    && |vs| == 1 && vs[0].List?
    && forall i :: 0 <= i < |vs[0].vs| ==> IsHeader(vs[0].vs[i])
  }

  predicate IsHeader(v: Value)
  {
    v.Tuple? && |v.vs| == 2 && v.vs[0].Num? && v.vs[0].n >= 0 && v.vs[1].Variant?
  }

  /** A later header replaces an earlier one of the same field. */
  function Collect(hs: seq<Value>, acc: map<nat, Value>): map<nat, Value>
    requires forall i :: 0 <= i < |hs| ==> IsHeader(hs[i])
  {
    if hs == [] then acc else
    assert IsHeader(hs[0]);
    Collect(hs[1..], acc[hs[0].vs[0].n := hs[0].vs[1]])
  }

  function Failure<T>(d: Dec<T>): MessageError
    requires !d.Got?
  {
    if d.Fail? then WireError(d.error) else Endless(d.elem)
  }

  function BodyTypes(sig: bytes): seq<Ty>
  {
    if ScanList(sig, 0).Rem? then TypesFor(sig, 0) else []
  }

  function SignatureOf(headers: map<nat, Value>): bytes
  {
    if FIELD_SIGNATURE in headers && headers[FIELD_SIGNATURE].Variant? && headers[FIELD_SIGNATURE].v.Sig?
    then headers[FIELD_SIGNATURE].v.s else []
  }

  /** DecodeMessage: the message at the front of inp and what follows it. */
  function DecodeMessage(inp: bytes): Result<(Message, bytes)>
  {
    if inp == [] then Err(WireError(UnexpectedEOF))
    else if inp[0] == 'l' then DecodeOrdered(Little, inp[1..])
    else if inp[0] == 'B' then DecodeOrdered(Big, inp[1..])
    else Err(InvalidByteOrder)
  }

  function DecodeOrdered(order: Order, inp: bytes): Result<(Message, bytes)>
  {
    var f := DecodeFields(FIXED_SIG, order, inp, 1, 0, []);
    if !f.Got? then Err(Failure(f))
    else if !IsFixed(f.v) then Err(StoreMismatch)
    else
      var length := f.v[3].n;
      var b := Take(f.rest, f.pos, 4);
      if !b.Got? then Err(Failure(b))
      else if (Get(order, b.v) + length + 16) % TWO_TO_THE_32 > MAX_MESSAGE then Err(MessageTooLong)
      else DecodeHeaders(order, Message(f.v[0].n, f.v[1].n, f.v[4].n, map[], [], []), length, f.rest)
  }

  function DecodeHeaders(order: Order, m: Message, length: nat, inp: bytes): Result<(Message, bytes)>
  {
    var h := DecodeFields(HEADERS_SIG, order, inp, 12, 0, []);
    if !h.Got? then Err(Failure(h))
    else if !IsHeaders(h.v) then Err(StoreMismatch)
    else
      var pad := Skip(h.rest, h.pos, 8);
      if !pad.Got? then Err(Panicked) else
      var body := Take(pad.rest, pad.pos, length);
      if !body.Got? then Err(Failure(body)) else
      DecodeBody(order, m.(headers := Collect(h.v[0].vs, map[])), body.v, body.rest)
  }

  function DecodeBody(order: Order, m: Message, body: bytes, rest: bytes): Result<(Message, bytes)>
  {
    var sig := SignatureOf(m.headers);
    if !IsValid(m) then Err(InvalidMessage)
    else if sig == [] then Ok((m, rest))
    else
      var vs := DecodeFields(sig, order, body, 0, 0, []);
      if !vs.Got? then Err(Failure(vs)) else Ok((m.(types := BodyTypes(sig), body := vs.v), rest))
  }

  /** DecodeMessage as written: three decoders over one reader, and a loop that fills the header map. */
  method ReadMessage(inp: bytes) returns (r: Result<(Message, bytes)>)
    ensures r == DecodeMessage(inp)
  {
    hide DecodeFields, IsFixed, IsHeaders, Collect, DecodeBody, Skip;
    if inp == [] {
      return Err(WireError(UnexpectedEOF));
    }
    if inp[0] != 'l' && inp[0] != 'B' {
      return Err(InvalidByteOrder);
    }
    var order := if inp[0] == 'l' then Little else Big;
    var dec := new Decoder(order, inp[1..], 1);
    var f := dec.DecodeAll(FIXED_SIG, 0);
    if !f.Got? {
      return Err(Failure(f));
    }
    if !IsFixed(f.v) {
      return Err(StoreMismatch);
    }
    Fixed5(f.v);
    var m, length := Message(f.v[0].n, f.v[1].n, f.v[4].n, map[], [], []), f.v[3].n;
    var rd := dec.input;
    var b := dec.Read(4);
    if !b.Got? {
      return Err(Failure(b));
    }
    if (Get(order, b.v) + length + 16) % TWO_TO_THE_32 > MAX_MESSAGE {
      return Err(MessageTooLong);
    }
    r := ReadHeaders(order, m, length, rd);
  }

  lemma Fixed5(vs: seq<Value>)
    requires IsFixed(vs)
    ensures |vs| == 5 && vs[0].Num? && vs[0].n >= 0 && vs[1].Num? && vs[1].n >= 0 && vs[3].Num? && vs[3].n >= 0
    ensures vs[4].Num? && vs[4].n >= 0
  {
  }

  method ReadHeaders(order: Order, m: Message, length: nat, inp: bytes) returns (r: Result<(Message, bytes)>)
    ensures r == DecodeHeaders(order, m, length, inp)
  {
    hide DecodeFields, DecodeBody, Skip;
    var dec := new Decoder(order, inp, 12);
    var h := dec.DecodeAll(HEADERS_SIG, 0);
    if !h.Got? {
      return Err(Failure(h));
    }
    if !IsHeaders(h.v) {
      return Err(StoreMismatch);
    }
    var hs := h.v[0].vs;
    var headers: map<nat, Value> := map[];
    var i := 0;
    while i < |hs|
      invariant 0 <= i <= |hs|
      invariant forall k :: 0 <= k < |hs[i..]| ==> IsHeader(hs[i..][k])
      invariant Collect(hs, map[]) == Collect(hs[i..], headers)
    {
      assert hs[i..][0] == hs[i] && hs[i..][1..] == hs[i + 1..];
      headers := headers[hs[i].vs[0].n := hs[i].vs[1]];
      i := i + 1;
    }
    var pad := dec.Align(8);
    if !pad.Got? {
      return Err(Panicked);
    }
    var body := dec.Read(length);
    if !body.Got? {
      return Err(Failure(body));
    }
    r := ReadBody(order, m.(headers := headers), body.v, body.rest);
  }

  method ReadBody(order: Order, m: Message, body: bytes, rest: bytes) returns (r: Result<(Message, bytes)>)
    ensures r == DecodeBody(order, m, body, rest)
  {
    hide DecodeFields, IsValid;
    var valid := CheckMessage(m);
    if !valid {
      return Err(InvalidMessage);
    }
    var sig := SignatureOf(m.headers);
    if sig == [] {
      return Ok((m, rest));
    }
    var dec := new Decoder(order, body, 0);
    var vs := dec.DecodeAll(sig, 0);
    r := if !vs.Got? then Err(Failure(vs)) else Ok((m.(types := BodyTypes(sig), body := vs.v), rest));
  }

  // ---------------------------------------------------------------- what EncodeTo writes

  /** Values that encode in the wire format wherever they stand, and that can be read back. */
  predicate RowReady(row: Row, vs: seq<Value>, depth: nat)
  {
    HaveTypes(vs, row) && AllSendable(row, vs) && AllEncodable(row, vs, depth) && AllAlignStable(row, vs)
  }

  predicate OneReady(t: Ty, v: Value, depth: nat)
  {
    HasType(v, t) && Sendable(t, v) && Encodable(t, v, depth) && AlignStable(t, v)
  }

  lemma OneRow(t: Ty, v: Value, depth: nat)
    requires OneReady(t, v, depth)
    ensures RowReady(Each([t]), [v], depth)
  {
    OneTyped(v, t);
    assert [v][1..] == [] && [t][1..] == [];
  }

  lemma {:induction false} RowConcat(ts: seq<Ty>, us: seq<Ty>, vs: seq<Value>, ws: seq<Value>, depth: nat)
    requires RowReady(Each(ts), vs, depth) && RowReady(Each(us), ws, depth)
    ensures RowReady(Each(ts + us), vs + ws, depth)
  {
    TypesConcat(ts, us, vs, ws);
    if vs == [] {
      assert vs + ws == ws && ts + us == us;
    } else {
      RowConcat(ts[1..], us, vs[1..], ws, depth);
      assert (vs + ws)[1..] == vs[1..] + ws && (ts + us)[1..] == ts[1..] + us;
    }
  }

  lemma {:induction false} MarshalConcat(ts: seq<Ty>, us: seq<Ty>, vs: seq<Value>, ws: seq<Value>, order: Order, p: nat)
    requires HaveTypes(vs, Each(ts)) && HaveTypes(ws, Each(us)) && HaveTypes(vs + ws, Each(ts + us))
    ensures var a := MarshalAll(Each(ts), vs, order, p);
            MarshalAll(Each(ts + us), vs + ws, order, p) == a + MarshalAll(Each(us), ws, order, p + |a|)
  {
    hide Marshal, MarshalAll, HasType, HaveTypes;
    ConcatStep(ts, us, vs, ws);
    if vs == [] {
      assert MarshalAll(Each(ts), vs, order, p) == [] by { MarshalNone(ts, order, p); }
    } else {
      MarshalFirst(ts, vs, order, p);
      MarshalFirst(ts + us, vs + ws, order, p);
      var a := Marshal(ts[0], vs[0], order, p);
      MarshalConcat(ts[1..], us, vs[1..], ws, order, p + |a|);
      var b := MarshalAll(Each(ts[1..]), vs[1..], order, p + |a|);
      Assoc(a, b, MarshalAll(Each(us), ws, order, p + |a| + |b|));
    }
  }

  lemma MarshalNone(ts: seq<Ty>, order: Order, p: nat)
    requires HaveTypes([], Each(ts))
    ensures MarshalAll(Each(ts), [], order, p) == []
  {
  }

  lemma ConcatStep(ts: seq<Ty>, us: seq<Ty>, vs: seq<Value>, ws: seq<Value>)
    requires HaveTypes(vs, Each(ts))
    ensures |vs| == |ts|
    ensures vs == [] ==> vs + ws == ws && ts + us == us
    ensures vs != [] ==> && vs + ws != [] && (vs + ws)[0] == vs[0] && (ts + us)[0] == ts[0]
                         && (vs + ws)[1..] == vs[1..] + ws && (ts + us)[1..] == ts[1..] + us
  {
    hide HasType;
  }

  lemma MarshalFirst(ts: seq<Ty>, vs: seq<Value>, order: Order, p: nat)
    requires HaveTypes(vs, Each(ts)) && vs != []
    ensures HasType(vs[0], ts[0]) && HaveTypes(vs[1..], Each(ts[1..]))
    ensures var a := Marshal(ts[0], vs[0], order, p);
            MarshalAll(Each(ts), vs, order, p) == a + MarshalAll(Each(ts[1..]), vs[1..], order, p + |a|)
  {
    hide Marshal, HasType;
  }

  /** Every header field can be encoded and read back. */
  predicate SendableHeaders(m: Message)
    requires Typed(m)
  {
    forall k :: k in m.headers ==> Sendable(Basic('v'), m.headers[k])
  }

  lemma HeaderReady(k: nat, v: Value)
    requires k < 256 && IsField(k, v) && HasType(v, Basic('v')) && Sendable(Basic('v'), v)
    ensures OneReady(HEADER, Tuple([Num(k), v]), 1)
  {
    HeaderTyped(k, v);
    assert AlignStable(v.ty, v.v) && Encodable(v.ty, v.v, 3);
    assert OneReady(Basic('v'), v, 2);
    OneRow(Basic('v'), v, 2);
    assert Pow256(1) == 256;
    OneRow(Basic('y'), Num(k), 2);
    RowConcat([Basic('y')], [Basic('v')], [Num(k)], [v], 2);
    assert [Basic('y')] + [Basic('v')] == [Basic('y'), Basic('v')] && [Num(k)] + [v] == [Num(k), v];
  }

  lemma {:induction false} HeadersReady(m: Message, keys: seq<nat>)
    requires Typed(m) && IsValid(m) && SendableHeaders(m) && forall k :: k in keys ==> k in m.headers
    ensures RowReady(Every(HEADER), HeaderList(m.headers, keys), 1)
  {
    hide IsField, Sendable, Encodable, AlignStable, IsValidPath, IsValidInterface, IsValidMember, Required;
    if keys == [] {
    } else {
      HeadersReady(m, keys[1..]);
      HeaderReady(keys[0], m.headers[keys[0]]);
    }
  }

  lemma PrologueReady(m: Message, order: Order, keys: seq<nat>, length: nat)
    requires Typed(m) && IsValid(m) && SendableHeaders(m) && forall k :: k in keys ==> k in m.headers
    ensures RowReady(Each([Basic('y')]), [Num(OrderByte(order) as int)], 0)
    ensures RowReady(Each(FIXED), FixedValues(m, length), 0)
    ensures RowReady(Each([HEADERS]), [List(HeaderList(m.headers, keys))], 0)
    ensures RowReady(Each(PROLOGUE), Prologue(m, order, keys, length), 0)
  {
    hide IsValid, SendableHeaders, Typed;
    var hs := List(HeaderList(m.headers, keys));
    HeadersReady(m, keys);
    assert OneReady(HEADERS, hs, 0);
    OneRow(HEADERS, hs, 0);
    assert Pow256(1) == 256;
    OneRow(Basic('y'), Num(OrderByte(order) as int), 0);
    FixedReady(m, length);
    RowConcat([Basic('y')], FIXED, [Num(OrderByte(order) as int)], FixedValues(m, length), 0);
    RowConcat([Basic('y')] + FIXED, [HEADERS], [Num(OrderByte(order) as int)] + FixedValues(m, length), [hs], 0);
  }

  lemma FixedReady(m: Message, length: nat)
    requires Typed(m)
    ensures RowReady(Each(FIXED), FixedValues(m, length), 0)
  {
    FixedTyped(m, length);
    NumbersReady(FIXED, FixedValues(m, length));
  }

  lemma {:induction false} NumbersReady(ts: seq<Ty>, vs: seq<Value>)
    requires HaveTypes(vs, Each(ts)) && forall i :: 0 <= i < |ts| ==> ts[i].Basic? && IsNumber(ts[i].c)
    ensures RowReady(Each(ts), vs, 0)
  {
    if vs == [] {
    } else {
      NumbersReady(ts[1..], vs[1..]);
      assert IsNumber(ts[0].c);
    }
  }

  lemma NumberFirst(c: byte, ts: seq<Ty>, v: Value, vs: seq<Value>, order: Order, p: nat)
    requires IsNumber(c) && HasType(v, Basic(c)) && HaveTypes(vs, Each(ts))
    ensures HaveTypes([v] + vs, Each([Basic(c)] + ts))
    ensures var q := AlignUp(p, Size(c)) + Size(c);
            p + |MarshalAll(Each([Basic(c)] + ts), [v] + vs, order, p)| == q + |MarshalAll(Each(ts), vs, order, q)|
  {
    hide AlignUp;
    assert ([v] + vs)[1..] == vs && ([Basic(c)] + ts)[1..] == ts;
    assert HaveTypes([v] + vs, Each([Basic(c)] + ts));
  }

  /** The fixed fields take the 11 bytes behind the byte order. */
  lemma FixedLength(m: Message, length: nat, order: Order)
    requires Typed(m)
    ensures HaveTypes(FixedValues(m, length), Each(FIXED))
    ensures |MarshalAll(Each(FIXED), FixedValues(m, length), order, 1)| == 11
  {
    hide MarshalAll, HaveTypes, Pow256;
    FixedTyped(m, length);
    FixedRanges(m, length);
    var vs := FixedValues(m, length);
    var y, u := Basic('y'), Basic('u');
    assert [u] + [] == [u] && [u] + [u] == [u, u] && [y] + [u, u] == [y, u, u] && [y] + [y, u, u] == [y, y, u, u]
        && [y] + [y, y, u, u] == FIXED;
    assert [vs[4]] + [] == [vs[4]] && [vs[3]] + [vs[4]] == [vs[3], vs[4]]
        && [vs[2]] + [vs[3], vs[4]] == [vs[2], vs[3], vs[4]]
        && [vs[1]] + [vs[2], vs[3], vs[4]] == [vs[1], vs[2], vs[3], vs[4]]
        && [vs[0]] + [vs[1], vs[2], vs[3], vs[4]] == vs;
    NoValues(order, 12);
    NumberFirst('u', [], vs[4], [], order, 8);
    NumberFirst('u', [u], vs[3], [vs[4]], order, 4);
    NumberFirst('y', [u, u], vs[2], [vs[3], vs[4]], order, 3);
    NumberFirst('y', [y, u, u], vs[1], [vs[2], vs[3], vs[4]], order, 2);
    NumberFirst('y', [y, y, u, u], vs[0], [vs[1], vs[2], vs[3], vs[4]], order, 1);
  }

  lemma NoValues(order: Order, p: nat)
    ensures HaveTypes([], Each([])) && MarshalAll(Each([]), [], order, p) == []
  {
  }

  lemma FixedRanges(m: Message, length: nat)
    requires Typed(m)
    ensures forall i :: 0 <= i < 5 ==> HasType(FixedValues(m, length)[i], FIXED[i])
  {
    Limit32();
    assert Pow256(1) == 256;
  }

  /** The pieces of an encoded message. */
  datatype Pieces = Pieces(fixed: bytes, headers: bytes, pad: bytes, body: bytes)

  function Cut(m: Message, order: Order, keys: seq<nat>): Pieces
    requires Typed(m) && forall k :: k in keys ==> k in m.headers
  {
    var body := MarshalAll(Each(m.types), m.body, order, 0);
    FixedTyped(m, |body|);
    HeadersTyped(m.headers, keys);
    var hs := MarshalAll(Every(HEADER), HeaderList(m.headers, keys), order, 16);
    Pieces(MarshalAll(Each(FIXED), FixedValues(m, |body|), order, 1), hs, Pad(16 + |hs|, 8), body)
  }

  /**
    The message on the wire: byte order, fixed fields, length and headers from byte 16 on, then
    padding so that the body starts at a multiple of 8.
   */
  lemma EncodedMessage(m: Message, order: Order, keys: seq<nat>)
    requires Typed(m) && IsValid(m) && SendableHeaders(m) && forall k :: k in keys ==> k in m.headers
    requires AllEncodable(Each(m.types), m.body, 0) && AllStable(Each(m.types), m.body, order, 0, 0)
    requires EncodeMessage(m, order, keys).Ok?
    ensures var c := Cut(m, order, keys);
            && |c.fixed| == 11 && |c.headers| + |c.body| + 16 <= MAX_MESSAGE
            && EncodeMessage(m, order, keys).v
               == [OrderByte(order)] + (c.fixed + (U32(order, |c.headers|) + (c.headers + (c.pad + c.body))))
  {
    hide Marshal, Enc, Stable, Encodable, IsValid, SendableHeaders, FixedValues, HeaderList, AllStable, AllEncodable;
    AllStableAreWireFormat(Each(m.types), m.body, order, 0, 0, 0);
    var c := Cut(m, order, keys);
    var first, fixed, hs := [Num(OrderByte(order) as int)], FixedValues(m, |c.body|), List(HeaderList(m.headers, keys));
    PrologueReady(m, order, keys, |c.body|);
    EncoderRefinesMarshaller(Each(PROLOGUE), Prologue(m, order, keys, |c.body|), order, 0);
    FixedLength(m, |c.body|, order);
    FirstByte(order);
    TypesConcat([Basic('y')], FIXED, first, fixed);
    MarshalConcat([Basic('y')] + FIXED, [HEADERS], first + fixed, [hs], order, 0);
    MarshalConcat([Basic('y')], FIXED, first, fixed, order, 0);
    HeaderArray(m, order, keys);
    var head := ([OrderByte(order)] + c.fixed) + (U32(order, |c.headers|) + c.headers);
    assert EncodeMessage(m, order, keys).v == head + c.pad + c.body;
    Regroup([OrderByte(order)], c.fixed, U32(order, |c.headers|), c.headers, c.pad, c.body);
  }

  lemma FirstByte(order: Order)
    ensures HaveTypes([Num(OrderByte(order) as int)], Each([Basic('y')]))
    ensures MarshalAll(Each([Basic('y')]), [Num(OrderByte(order) as int)], order, 0) == [OrderByte(order)]
  {
    assert Pow256(1) == 256;
    var n := OrderByte(order) as int;
    OneTyped(Num(n), Basic('y'));
    assert Put(order, n, 1) == [OrderByte(order)] by {
      assert Put(order, n / 256, 0) == [];
    }
    assert Marshal(Basic('y'), Num(n), order, 0) == [OrderByte(order)];
    assert [Num(n)][1..] == [];
  }

  lemma HeaderArray(m: Message, order: Order, keys: seq<nat>)
    requires Typed(m) && forall k :: k in keys ==> k in m.headers
    ensures HaveTypes([List(HeaderList(m.headers, keys))], Each([HEADERS]))
    ensures var hs := Cut(m, order, keys).headers;
            MarshalAll(Each([HEADERS]), [List(HeaderList(m.headers, keys))], order, 12) == U32(order, |hs|) + hs
  {
    hide HeaderList, FixedValues;
    HeadersTyped(m.headers, keys);
    var list := List(HeaderList(m.headers, keys));
    OneTyped(list, HEADERS);
    ListMarshal(HEADERS, list, order, 12);
    assert [list][1..] == [];
    var hs := Cut(m, order, keys).headers;
    FramedAt12(hs, order);
  }

  lemma FramedAt12(hs: bytes, order: Order)
    ensures DataStart(HEADER, 12) == 16 && Framed(HEADER, hs, order, 12) == U32(order, |hs|) + hs
  {
    hide U32;
    assert Alignment(HEADER) == 8;
    assert Pad(12, 4) == [] && Pad(16, 8) == [];
    assert [] + hs == hs && [] + (U32(order, |hs|) + hs) == U32(order, |hs|) + hs;
  }

  lemma Regroup(a: bytes, b: bytes, c: bytes, d: bytes, e: bytes, f: bytes)
    ensures (((a + b) + (c + d)) + e) + f == a + (b + (c + (d + (e + f))))
  {
    Assoc((a + b) + (c + d), e, f);
    Assoc(a + b, c + d, e + f);
    Assoc(a, b, (c + d) + (e + f));
    Assoc(c, d, e + f);
  }

  // ---------------------------------------------------------------- the round trip

  lemma Signatures()
    ensures PrintAll(FIXED) == FIXED_SIG && AllWire(FIXED)
    ensures PrintAll([HEADERS]) == HEADERS_SIG && AllWire([HEADERS])
  {
    assert FIXED[1..][1..][1..][1..][1..] == [];
    assert [Basic('y'), Basic('v')][1..] == [Basic('v')] && [Basic('v')][1..] == [];
    assert Print(HEADER) == "(yv)";
    assert [HEADERS][1..] == [];
    FixedWire();
  }

  lemma FixedWire()
    ensures AllWire(FIXED) && PrintAll(FIXED) == FIXED_SIG
  {
    var y, u := Basic('y'), Basic('u');
    assert FIXED[1..] == [y, y, u, u] && [y, y, u, u][1..] == [y, u, u] && [y, u, u][1..] == [u, u]
        && [u, u][1..] == [u] && [u][1..] == [];
    assert PrintAll([u]) == "u";
    assert PrintAll([u, u]) == "uu";
    assert PrintAll([y, u, u]) == "yuu";
    assert PrintAll([y, y, u, u]) == "yyuu";
    BasicsWire(FIXED);
  }

  lemma {:induction false} BasicsWire(ts: seq<Ty>)
    requires forall i :: 0 <= i < |ts| ==> ts[i].Basic? && IsBasic(ts[i].c)
    ensures LetteredAll(ts) && NestAll(ts) == 0 && AllSolid(ts)
  {
    if ts == [] {
    } else {
      assert ts[0].Basic? && IsBasic(ts[0].c);
      BasicsWire(ts[1..]);
    }
  }

  function Restrict(headers: map<nat, Value>, keys: seq<nat>): map<nat, Value>
  {
    map k | k in headers && k in keys :: headers[k]
  }

  lemma {:induction false} CollectHeaders(headers: map<nat, Value>, keys: seq<nat>, acc: map<nat, Value>)
    requires forall k :: k in keys ==> k in headers && headers[k].Variant?
    ensures var hs := HeaderList(headers, keys);
            && (forall i :: 0 <= i < |hs| ==> IsHeader(hs[i]))
            && Collect(hs, acc) == acc + Restrict(headers, keys)
  {
    if keys == [] {
      assert acc + Restrict(headers, keys) == acc;
    } else {
      var next := acc[keys[0] := headers[keys[0]]];
      CollectHeaders(headers, keys[1..], next);
      var hs := HeaderList(headers, keys);
      assert hs[1..] == HeaderList(headers, keys[1..]);
      RestrictStep(headers, keys, acc);
    }
  }

  lemma RestrictStep(headers: map<nat, Value>, keys: seq<nat>, acc: map<nat, Value>)
    requires keys != [] && forall k :: k in keys ==> k in headers
    ensures acc[keys[0] := headers[keys[0]]] + Restrict(headers, keys[1..]) == acc + Restrict(headers, keys)
  {
    assert forall k :: k in keys <==> k == keys[0] || k in keys[1..];
  }

  lemma CollectAll(m: Message, keys: seq<nat>)
    requires Typed(m) && Ranges(m.headers, keys)
    ensures IsHeaders([List(HeaderList(m.headers, keys))])
    ensures Collect(HeaderList(m.headers, keys), map[]) == m.headers
  {
    CollectHeaders(m.headers, keys, map[]);
    assert Restrict(m.headers, keys) == m.headers;
  }

  /** A message that arrives: everything but its headers and body is taken from the fixed fields. */
  lemma DecodesBody(m: Message, order: Order, rest: bytes)
    requires Typed(m) && IsValid(m) && SignatureOf(m.headers) == PrintAll(m.types)
    requires AllWire(m.types) && AllSendable(Each(m.types), m.body) && AllEncodable(Each(m.types), m.body, 0)
    requires |MarshalAll(Each(m.types), m.body, order, 0)| < TWO_TO_THE_32
    ensures DecodeBody(order, m.(types := [], body := []), MarshalAll(Each(m.types), m.body, order, 0), rest)
         == Ok((m, rest))
  {
    hide DecodeFields, MarshalAll, SignatureOf, IsField, IsValidPath, IsValidInterface, IsValidMember, Required;
    var body := MarshalAll(Each(m.types), m.body, order, 0);
    DecodesFields(m.types, m.body, order, 0, 0, [], []);
    assert body + [] == body && [] + m.body == m.body;
    if m.types != [] {
      ScanPrintAll(m.types, 0);
      TypesForPrints(PrintAll(m.types), 0);
      PrintAllInjective(TypesFor(PrintAll(m.types), 0), m.types);
    }
  }

  lemma DecodesHeaders(m: Message, order: Order, keys: seq<nat>, w: bytes)
    requires Typed(m) && IsValid(m) && SendableHeaders(m) && Ranges(m.headers, keys)
    requires SignatureOf(m.headers) == PrintAll(m.types)
    requires AllWire(m.types) && AllSendable(Each(m.types), m.body) && AllEncodable(Each(m.types), m.body, 0)
    requires var c := Cut(m, order, keys); |c.headers| + |c.body| + 16 <= MAX_MESSAGE
    ensures var c := Cut(m, order, keys);
            DecodeHeaders(order, m.(headers := map[], types := [], body := []), |c.body|,
                          (U32(order, |c.headers|) + c.headers) + (c.pad + (c.body + w)))
            == Ok((m, w))
  {
    hide IsValid, SendableHeaders, HeaderList, MarshalAll, DecodeFields, Skip, Take, U32, DecodeBody, SignatureOf;
    hide AllWire, AllSendable, AllEncodable, IsHeaders, Collect, AlignUp;
    var c := Cut(m, order, keys);
    var list := List(HeaderList(m.headers, keys));
    var tail := c.pad + (c.body + w);
    PrologueReady(m, order, keys, |c.body|);
    HeaderArray(m, order, keys);
    Signatures();
    DecodesFields([HEADERS], [list], order, 12, 0, [], tail);
    assert [] + [list] == [list];
    CollectAll(m, keys);
    SkipPad(c.body + w, 16 + |c.headers|, 8);
    TakeFront(c.body, w, AlignUp(16 + |c.headers|, 8));
    DecodesBody(m, order, w);
  }

  /**
    DecodeMessage gives back the message that EncodeTo wrote, whatever follows it, in both byte orders
    and in whatever order the header map was ranged over.
   */
  lemma MessageRoundTrip(m: Message, order: Order, keys: seq<nat>, w: bytes)
    requires Typed(m) && IsValid(m) && SendableHeaders(m) && Ranges(m.headers, keys)
    requires SignatureOf(m.headers) == PrintAll(m.types)
    requires AllWire(m.types) && AllSendable(Each(m.types), m.body) && AllEncodable(Each(m.types), m.body, 0)
    requires AllStable(Each(m.types), m.body, order, 0, 0)
    requires EncodeMessage(m, order, keys).Ok?
    ensures DecodeMessage(EncodeMessage(m, order, keys).v + w) == Ok((m, w))
  {
    hide IsValid, SendableHeaders, HeaderList, MarshalAll, DecodeFields, U32, SignatureOf, AllStable, DecodeOrdered;
    hide AllWire, AllSendable, AllEncodable, EncodeMessage, FixedValues, AlignUp;
    EncodedMessage(m, order, keys);
    var c := Cut(m, order, keys);
    var n := U32(order, |c.headers|);
    var tail := (n + c.headers) + (c.pad + (c.body + w));
    Stretch([OrderByte(order)], c.fixed, n, c.headers, c.pad, c.body, w);
    Parted([OrderByte(order)], c.fixed + tail);
    DecodesHeaders(m, order, keys, w);
    FixedTyped(m, |c.body|);
    DecodesOrdered(m, |c.body|, |c.headers|, order, c.fixed, c.headers + (c.pad + (c.body + w)));
    Assoc(n, c.headers, c.pad + (c.body + w));
  }

  lemma DecodesOrdered(m: Message, length: nat, hlength: nat, order: Order, fixed: bytes, rest: bytes)
    requires Typed(m) && hlength + length + 16 <= MAX_MESSAGE && HaveTypes(FixedValues(m, length), Each(FIXED))
    requires fixed == MarshalAll(Each(FIXED), FixedValues(m, length), order, 1)
    ensures DecodeOrdered(order, fixed + (U32(order, hlength) + rest))
         == DecodeHeaders(order, m.(headers := map[], types := [], body := []), length, U32(order, hlength) + rest)
  {
    hide DecodeHeaders, MarshalAll, DecodeFields, U32, IsFixed;
    var tail := U32(order, hlength) + rest;
    DecodesFixed(m, length, order, tail);
    TakeFront(U32(order, hlength), rest, 12);
    ReadBack(order, hlength);
    assert (hlength + length + 16) % TWO_TO_THE_32 == hlength + length + 16;
  }

  lemma ReadBack(order: Order, n: nat)
    requires n < TWO_TO_THE_32
    ensures Get(order, U32(order, n)) == n
  {
    Limit32();
    GetPut(order, n, 4);
  }

  lemma Stretch(a: bytes, b: bytes, c: bytes, d: bytes, e: bytes, f: bytes, w: bytes)
    ensures (a + (b + (c + (d + (e + f))))) + w == a + (b + ((c + d) + (e + (f + w))))
  {
    Assoc(a, b + (c + (d + (e + f))), w);
    Assoc(b, c + (d + (e + f)), w);
    Assoc(c, d + (e + f), w);
    Assoc(d, e + f, w);
    Assoc(e, f, w);
    Assoc(c, d, e + (f + w));
  }

  lemma DecodesFixed(m: Message, length: nat, order: Order, tail: bytes)
    requires Typed(m) && length < TWO_TO_THE_32
    ensures HaveTypes(FixedValues(m, length), Each(FIXED))
    ensures var fs := MarshalAll(Each(FIXED), FixedValues(m, length), order, 1);
            DecodeFields(FIXED_SIG, order, fs + tail, 1, 0, []) == Got(FixedValues(m, length), tail, 12)
    ensures IsFixed(FixedValues(m, length)) && FixedValues(m, length)[3].n == length
  {
    hide DecodeFields, MarshalAll;
    Signatures();
    FixedReady(m, length);
    FixedLength(m, length, order);
    DecodesFields(FIXED, FixedValues(m, length), order, 1, 0, [], tail);
    assert [] + FixedValues(m, length) == FixedValues(m, length);
  }
}
