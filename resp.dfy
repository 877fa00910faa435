/** The RESP2 value grammar of src/protocol/resp.rs: the decoded value type, its
    typed accessors, and the recursive-descent decoder `ParseRaw`, which reads one
    value from the front of a byte buffer and returns it with the unconsumed rest.

    The source builds the decoder from parser combinators; here each combinator
    expression is written out as the grammar it expresses, with one failure outcome
    (`None`) standing for nom's Error, Failure and Incomplete results. */
module Resp {
  import opened Wrappers
  import opened Text
  import opened Errors

  const STR_PREFIX: byte := 43    // '+'
  const ERR_PREFIX: byte := 45    // '-'
  const INT_PREFIX: byte := 58    // ':'
  const BULK_PREFIX: byte := 36   // '$'
  const ARR_PREFIX: byte := 42    // '*'
  const CRLF: Bytes := [CR, LF]

  /** A decoded protocol value. `Str` and `Error` hold their text as UTF-8 bytes.
      `BulkStr(None)` is the null bulk string and `NullArr` the null array, both written
      with length -1; the source's `Arr(None)` is `NullArr` here and its
      `Arr(Some(xs))` is `Arr(xs)`. (Dafny cannot see that a value inside an optional
      sequence is smaller than the array holding it, which every recursive definition
      over arrays needs.) */
  datatype RespType =
    | Str(text: Bytes)
    | Error(text: Bytes)
    | Integer(n: i64)
    | BulkStr(bulk: Option<Bytes>)
    | Arr(elems: seq<RespType>)
    | NullArr

  /** What every decoded value satisfies: the text of a simple string or an error
      is valid UTF-8 and holds no CR, at every depth. */
  predicate WellFormed(v: RespType) {
    match v
    case Str(t) => CR !in t && ValidUtf8(t)
    case Error(t) => CR !in t && ValidUtf8(t)
    case Integer(_) => true
    case BulkStr(_) => true
    case Arr(xs) => forall i | 0 <= i < |xs| :: WellFormed(xs[i])
    case NullArr => true
  }

  // ---------------------------------------------------------------------------
  // Accessors (impl RESPType)
  // ---------------------------------------------------------------------------

  /** `get_string`: the text of a simple string, or of a present bulk string whose
      bytes are valid UTF-8. */
  function GetString(v: RespType): (r: Outcome<Bytes>)
    ensures v.Str? ==> r == Ok(v.text)
    ensures v.BulkStr? && v.bulk.Some? ==>
              r == if ValidUtf8(v.bulk.value) then Ok(v.bulk.value) else Err(Utf8Err)
    ensures !v.Str? && !(v.BulkStr? && v.bulk.Some?) ==> r == Err(NotStr)
    ensures r.Ok? ==> v == Str(r.value) || (v == BulkStr(Some(r.value)) && ValidUtf8(r.value))
    ensures r.Ok? && WellFormed(v) ==> ValidUtf8(r.value)
  {
    match v
    case Str(t) => Ok(t)
    case BulkStr(b) =>
      if b.Some? then
        if ValidUtf8(b.value) then Ok(b.value) else Err(Utf8Err)
      else Err(NotStr)
    case _ => Err(NotStr)
  }

  /** `get_int`: succeeds only for an integer. */
  function GetInt(v: RespType): (r: Outcome<i64>)
    ensures r.Ok? <==> v.Integer?
    ensures r.Ok? ==> v == Integer(r.value)
    ensures r.Err? ==> r.error == NotInt
  {
    if v.Integer? then Ok(v.n) else Err(NotInt)
  }

  /** `to_arr`: the elements of a present, non-empty array. */
  function ToArr(v: RespType): (r: Outcome<seq<RespType>>)
    ensures r.Ok? <==> v.Arr? && |v.elems| > 0
    ensures r.Ok? ==> v == Arr(r.value) && |r.value| > 0
    ensures v == Arr([]) ==> r == Err(EmptyArr)
    ensures !v.Arr? ==> r == Err(NotArr)
  {
    match v
    case Arr(xs) => if |xs| == 0 then Err(EmptyArr) else Ok(xs)
    case _ => Err(NotArr)
  }

  // ---------------------------------------------------------------------------
  // Decoder
  // ---------------------------------------------------------------------------

  /** A parse result: the value read and the bytes left after it. */
  datatype Parsed<T> = Parsed(value: T, rest: Bytes)

  predicate IsSuffix(r: Bytes, s: Bytes) {
    |r| <= |s| && r == s[|s| - |r|..]
  }

  lemma SuffixTransitive(r: Bytes, q: Bytes, s: Bytes)
    requires IsSuffix(r, q) && IsSuffix(q, s)
    ensures IsSuffix(r, s)
  {
    assert s[|s| - |q|..][|q| - |r|..] == s[|s| - |r|..];
  }

  /** Index of the first CR in t, or |t| when t holds none. */
  function FindCR(t: Bytes): (i: nat)
    ensures i <= |t|
    ensures forall j | 0 <= j < i :: t[j] != CR
    ensures i < |t| ==> t[i] == CR
  {
    if |t| == 0 || t[0] == CR then 0 else 1 + FindCR(t[1..])
  }

  /** `take_until("\r")` followed by `crlf`: the line is every byte before the first
      CR, and that CR must be followed by LF. A bare LF inside the line is kept. */
  function Line(t: Bytes): (r: Option<Parsed<Bytes>>)
    ensures r.Some? ==> t == r.value.value + CRLF + r.value.rest && CR !in r.value.value
  {
    var i := FindCR(t);
    if i + 1 < |t| && t[i + 1] == LF then
      assert t == t[..i] + CRLF + t[i + 2..];
      Some(Parsed(t[..i], t[i + 2..]))
    else None
  }

  /** `ps(c)`: the prefix byte c, then a line that must be valid UTF-8. */
  function Ps(c: byte, s: Bytes): (r: Option<Parsed<Bytes>>)
    ensures r.Some? ==> s == [c] + r.value.value + CRLF + r.value.rest
    ensures r.Some? ==> CR !in r.value.value && ValidUtf8(r.value.value)
  {
    if |s| == 0 || s[0] != c then None
    else
      var line :- Line(s[1..]);
      assert s == [c] + s[1..];
      if ValidUtf8(line.value) then Some(line) else None
  }

  /** `pi(c)`: the prefix byte c, then a line that must be valid UTF-8 and parse as an i64. */
  function Pi(c: byte, s: Bytes): (r: Option<Parsed<i64>>)
    ensures r.Some? ==> |r.value.rest| < |s| && IsSuffix(r.value.rest, s)
  {
    if |s| == 0 || s[0] != c then None
    else
      var line :- Line(s[1..]);
      if !ValidUtf8(line.value) then None
      else
        var n :- ParseI64(line.value);
        assert s == [c] + line.value + CRLF + line.rest;
        Some(Parsed(n, line.rest))
  }

  /** `parse_str`: `+` line. */
  function ParseStr(s: Bytes): (r: Option<Parsed<RespType>>)
    ensures r.Some? ==> r.value.value.Str?
  {
    var p :- Ps(STR_PREFIX, s);
    Some(Parsed(Str(p.value), p.rest))
  }

  /** `parse_err`: `-` line. */
  function ParseErr(s: Bytes): (r: Option<Parsed<RespType>>)
    ensures r.Some? ==> r.value.value.Error?
  {
    var p :- Ps(ERR_PREFIX, s);
    Some(Parsed(Error(p.value), p.rest))
  }

  /** `parse_integer`: `:` line holding a signed decimal. */
  function ParseInteger(s: Bytes): (r: Option<Parsed<RespType>>)
    ensures r.Some? ==> r.value.value.Integer?
  {
    var p :- Pi(INT_PREFIX, s);
    Some(Parsed(Integer(p.value), p.rest))
  }

  /** The `as usize` cast of a 64-bit target: a negative i64 wraps to a value of at least 2^63. */
  function AsUsize(n: i64): (m: nat)
    ensures n >= 0 ==> m == n
    ensures n < 0 ==> m >= I64_LIMIT
  {
    if n < 0 then n + U64_LIMIT else n
  }

  /** `parse_bulk_str`: a `$` length line; -1 is the null bulk string; otherwise exactly
      that many bytes (any bytes) followed by CRLF. */
  function ParseBulkStr(s: Bytes): (r: Option<Parsed<RespType>>)
    ensures r.Some? ==> r.value.value.BulkStr?
  {
    var header :- Pi(BULK_PREFIX, s);
    BulkBody(header.value, header.rest)
  }

  /** What follows a bulk string's length line of value n. */
  function BulkBody(n: i64, rest: Bytes): (r: Option<Parsed<RespType>>)
    ensures r.Some? ==> r.value.value.BulkStr? && IsSuffix(r.value.rest, rest)
  {
    if n == -1 then Some(Parsed(BulkStr(None), rest))
    else
      var m := AsUsize(n);
      if |rest| < m + 2 || rest[m..m + 2] != CRLF then None
      else Some(Parsed(BulkStr(Some(rest[..m])), rest[m + 2..]))
  }

  /** `parse_arr`: a `*` count line; -1 is the null array; otherwise exactly that
      many values, each decoded by `ParseRaw`. */
  function ParseArr(s: Bytes): (r: Option<Parsed<RespType>>)
    ensures r.Some? ==> r.value.value.Arr? || r.value.value.NullArr?
    ensures r.Some? ==> |r.value.rest| < |s| && IsSuffix(r.value.rest, s)
    ensures r.Some? ==> WellFormed(r.value.value)
    decreases |s|, 1
  {
    var header :- Pi(ARR_PREFIX, s);
    var p :- ArrBody(header.value, header.rest);
    SuffixTransitive(p.rest, header.rest, s);
    Some(p)
  }

  /** What follows an array's count line of value n. */
  function ArrBody(n: i64, rest: Bytes): (r: Option<Parsed<RespType>>)
    ensures r.Some? ==> r.value.value.Arr? || r.value.value.NullArr?
    ensures r.Some? ==> IsSuffix(r.value.rest, rest) && WellFormed(r.value.value)
    decreases |rest|, 4
  {
    if n == -1 then Some(Parsed(NullArr, rest))
    else
      var elems :- ParseElements(rest, AsUsize(n));
      Some(Parsed(Arr(elems.value), elems.rest))
  }

  /** `many_m_n(m, m, parse_raw)`: exactly m consecutive values. */
  function ParseElements(s: Bytes, m: nat): (r: Option<Parsed<seq<RespType>>>)
    ensures r.Some? ==> IsSuffix(r.value.rest, s) && |r.value.value| == m
    ensures r.Some? ==> |s| - |r.value.rest| >= m
    ensures r.Some? ==> forall i | 0 <= i < m :: WellFormed(r.value.value[i])
    decreases |s|, 3
  {
    if m == 0 then Some(Parsed([], s))
    else
      match ParseRaw(s)
      case None => None
      case Some(first) =>
        match ParseElements(first.rest, m - 1)
        case None => None
        case Some(others) =>
          SuffixTransitive(others.rest, first.rest, s);
          assert forall i | 1 <= i < m :: ([first.value] + others.value)[i] == others.value[i - 1];
          Some(Parsed([first.value] + others.value, others.rest))
  }

  /** `parse_raw`: one value of any kind. Each of the five alternatives demands its
      own prefix byte, so trying them in turn is a dispatch on the first byte. */
  function ParseRaw(s: Bytes): (r: Option<Parsed<RespType>>)
    ensures r.Some? ==> |r.value.rest| < |s| && IsSuffix(r.value.rest, s)
    ensures r.Some? ==> WellFormed(r.value.value)
    ensures r.Some? ==> s[0] in {STR_PREFIX, ERR_PREFIX, INT_PREFIX, BULK_PREFIX, ARR_PREFIX}
    decreases |s|, 2
  {
    if |s| == 0 then None
    else if s[0] == STR_PREFIX then ParseStr(s)
    else if s[0] == ERR_PREFIX then ParseErr(s)
    else if s[0] == INT_PREFIX then ParseInteger(s)
    else if s[0] == BULK_PREFIX then ParseBulkStr(s)
    else if s[0] == ARR_PREFIX then ParseArr(s)
    else None
  }
}
