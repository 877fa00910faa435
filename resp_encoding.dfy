/** A reference encoder for the values of src/protocol/resp.rs, written as the
    canonical RESP2 wire form, and the round trip that ties it to the decoder:
    decoding the encoding of any encodable value gives the value back and leaves
    whatever follows untouched. The concrete cases of the source's own tests are
    instances of it. */
module RespEncoding {
  import opened Wrappers
  import opened Text
  import opened Resp
  import opened RespProperties

  /** The canonical encoding: a prefix byte, a line, and for bulk strings and arrays
      the payload or the elements after it. */
  function Encode(v: RespType): (r: Bytes)
    ensures |r| > 0
    decreases v
  {
    match v
    case Str(t) => [STR_PREFIX] + t + CRLF
    case Error(t) => [ERR_PREFIX] + t + CRLF
    case Integer(n) => [INT_PREFIX] + IntText(n) + CRLF
    case BulkStr(None) => [BULK_PREFIX] + IntText(-1) + CRLF
    case BulkStr(Some(b)) => [BULK_PREFIX] + IntText(|b|) + CRLF + b + CRLF
    case Arr(xs) => [ARR_PREFIX] + IntText(|xs|) + CRLF + EncodeAll(xs)
    case NullArr => [ARR_PREFIX] + IntText(-1) + CRLF
  }

  /** The encodings of xs, one after another. */
  function EncodeAll(xs: seq<RespType>): Bytes
    decreases xs
  {
    if |xs| == 0 then [] else Encode(xs[0]) + EncodeAll(xs[1..])
  }

  /** What the encoder can write so that the decoder reads it back: simple-string and
      error text without CR and valid as UTF-8, and bulk lengths and array counts
      that fit an i64 header. */
  predicate Encodable(v: RespType) {
    match v
    case Str(t) => CR !in t && ValidUtf8(t)
    case Error(t) => CR !in t && ValidUtf8(t)
    case Integer(_) => true
    case BulkStr(b) => b.Some? ==> |b.value| < I64_LIMIT
    case Arr(xs) => |xs| < I64_LIMIT && forall i | 0 <= i < |xs| :: Encodable(xs[i])
    case NullArr => true
  }

  /** Every encodable value satisfies what the decoder guarantees of its results. */
  lemma {:induction false} EncodableIsWellFormed(v: RespType)
    requires Encodable(v)
    ensures WellFormed(v)
    decreases v
  {
    if v.Arr? {
      forall i | 0 <= i < |v.elems| ensures WellFormed(v.elems[i]) {
        EncodableIsWellFormed(v.elems[i]);
      }
    }
  }

  /** Decoding an encoded value gives it back, with every following byte as the rest. */
  lemma {:induction false} RoundTrip(v: RespType, t: Bytes)
    requires Encodable(v)
    ensures ParseRaw(Encode(v) + t) == Some(Parsed(v, t))
    decreases v, 1
  {
    match v
    case Str(text) =>
      assert Encode(v) + t == [STR_PREFIX] + text + CRLF + t;
      StrExactly(Encode(v) + t, text, t);
    case Error(text) =>
      assert Encode(v) + t == [ERR_PREFIX] + text + CRLF + t;
      ErrorExactly(Encode(v) + t, text, t);
    case Integer(n) => RoundTripInteger(n, t);
    case BulkStr(None) =>
      RoundTripNullBulk(t);
    case BulkStr(Some(b)) => RoundTripBulk(b, t);
    case Arr(xs) => RoundTripArr(xs, t);
    case NullArr =>
      RoundTripNullArr(t);
  }

  lemma RoundTripInteger(n: i64, t: Bytes)
    ensures ParseRaw(Encode(Integer(n)) + t) == Some(Parsed(Integer(n), t))
  {
    assert Encode(Integer(n)) + t == [INT_PREFIX] + IntText(n) + CRLF + t;
    IntTextIsLine(n);
    ParseI64IntText(n);
    IntegerLine(IntText(n), t);
  }

  lemma RoundTripNullBulk(t: Bytes)
    ensures ParseRaw(Encode(BulkStr(None)) + t) == Some(Parsed(BulkStr(None), t))
  {
    assert Encode(BulkStr(None)) + t == [BULK_PREFIX] + IntText(-1) + CRLF + t;
    IntTextIsLine(-1);
    ParseI64IntText(-1);
    BulkNull(IntText(-1), t);
  }

  lemma RoundTripBulk(b: Bytes, t: Bytes)
    requires |b| < I64_LIMIT
    ensures ParseRaw(Encode(BulkStr(Some(b))) + t) == Some(Parsed(BulkStr(Some(b)), t))
  {
    var m: i64 := |b|;
    var rest := b + CRLF + t;
    assert Encode(BulkStr(Some(b))) + t == [BULK_PREFIX] + IntText(m) + CRLF + rest;
    IntTextIsLine(m);
    ParseI64IntText(m);
    BulkPayload(IntText(m), m, rest);
    assert rest[..m] == b && rest[m..m + 2] == CRLF && rest[m + 2..] == t;
  }

  lemma RoundTripNullArr(t: Bytes)
    ensures ParseRaw(Encode(NullArr) + t) == Some(Parsed(NullArr, t))
  {
    assert Encode(NullArr) + t == [ARR_PREFIX] + IntText(-1) + CRLF + t;
    IntTextIsLine(-1);
    ParseI64IntText(-1);
    ArrNull(IntText(-1), t);
  }

  lemma {:induction false} RoundTripArr(xs: seq<RespType>, t: Bytes)
    requires Encodable(Arr(xs))
    ensures ParseRaw(Encode(Arr(xs)) + t) == Some(Parsed(Arr(xs), t))
    decreases Arr(xs), 0
  {
    var m: i64 := |xs|;
    var rest := EncodeAll(xs) + t;
    assert Encode(Arr(xs)) + t == [ARR_PREFIX] + IntText(m) + CRLF + rest;
    IntTextIsLine(m);
    ParseI64IntText(m);
    ArrElements(IntText(m), m, rest);
    RoundTripAll(xs, t);
  }

  /** Decoding the encodings of xs, one after another, reads exactly the values of xs. */
  lemma {:induction false} RoundTripAll(xs: seq<RespType>, t: Bytes)
    requires forall i | 0 <= i < |xs| :: Encodable(xs[i])
    ensures ParseElements(EncodeAll(xs) + t, |xs|) == Some(Parsed(xs, t))
    decreases xs
  {
    if |xs| > 0 {
      var tail := xs[1..];
      var mid := EncodeAll(tail) + t;
      var s := EncodeAll(xs) + t;
      assert s == Encode(xs[0]) + mid;
      RoundTrip(xs[0], mid);
      RoundTripAll(tail, t);
      var n: nat := |tail|;
      ElementsCons(s, n, xs[0], mid, tail, t);
      assert [xs[0]] + tail == xs;
    }
  }

  /** Decoding an encoding that ends the buffer leaves nothing behind. */
  lemma DecodeEncode(v: RespType)
    requires Encodable(v)
    ensures ParseRaw(Encode(v)) == Some(Parsed(v, []))
  {
    RoundTrip(v, []);
    assert Encode(v) + [] == Encode(v);
  }
}
