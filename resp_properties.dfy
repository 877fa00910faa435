/** Properties of the decoder of src/protocol/resp.rs: what each production accepts,
    the null/empty distinction, remainder handling and the order of array elements. */
module RespProperties {
  import opened Wrappers
  import opened Text
  import opened Resp

  // ---------------------------------------------------------------------------
  // Lines
  // ---------------------------------------------------------------------------

  /** In `line + CR + tail` with no CR in line, the first CR is the one after line. */
  lemma FindCRAfter(line: Bytes, tail: Bytes)
    requires CR !in line
    ensures FindCR(line + [CR] + tail) == |line|
  {
    var t := line + [CR] + tail;
    assert t[|line|] == CR;
    assert forall j | 0 <= j < |line| :: t[j] == line[j];
  }

  /** A CR-free line followed by CRLF is read as that line, whatever follows. */
  lemma LineOf(line: Bytes, rest: Bytes)
    requires CR !in line
    ensures Line(line + CRLF + rest) == Some(Parsed(line, rest))
  {
    var t := line + CRLF + rest;
    assert t == line + [CR] + ([LF] + rest);
    FindCRAfter(line, [LF] + rest);
    assert t[..|line|] == line;
    assert t[|line| + 2..] == rest;
  }

  /** A line is exactly the bytes before the first CR, and that CR must be followed by LF. */
  lemma LineExactly(t: Bytes, line: Bytes, rest: Bytes)
    ensures Line(t) == Some(Parsed(line, rest)) <==> t == line + CRLF + rest && CR !in line
  {
    if t == line + CRLF + rest && CR !in line {
      LineOf(line, rest);
    }
  }

  /** Without a CR there is no line, and a CR not followed by LF ends no line either. */
  lemma LineNeedsCRLF(t: Bytes)
    ensures CR !in t ==> Line(t) == None
    ensures FindCR(t) < |t| && (FindCR(t) + 1 == |t| || t[FindCR(t) + 1] != LF) ==> Line(t) == None
  {
    assert FindCR(t) < |t| ==> t[FindCR(t)] in t;
  }

  lemma PsOf(c: byte, line: Bytes, rest: Bytes)
    requires CR !in line && ValidUtf8(line)
    ensures Ps(c, [c] + line + CRLF + rest) == Some(Parsed(line, rest))
  {
    var s := [c] + line + CRLF + rest;
    assert s[1..] == line + CRLF + rest;
    LineOf(line, rest);
  }

  /** A number line is accepted exactly when its text parses as an i64; the UTF-8 check
      that precedes the parse never rejects a number, since digits and signs are ASCII. */
  lemma PiOf(c: byte, line: Bytes, rest: Bytes)
    requires CR !in line
    ensures Pi(c, [c] + line + CRLF + rest) ==
              match ParseI64(line)
              case Some(n) => Some(Parsed(n, rest))
              case None => None
  {
    var s := [c] + line + CRLF + rest;
    assert s[1..] == line + CRLF + rest;
    LineOf(line, rest);
    if ParseI64(line).Some? {
      AsciiIsUtf8(line);
    }
  }

  // ---------------------------------------------------------------------------
  // The five productions
  // ---------------------------------------------------------------------------

  /** The first byte alone selects the production. */
  lemma Dispatch(s: Bytes)
    requires |s| > 0
    ensures s[0] == STR_PREFIX ==> ParseRaw(s) == ParseStr(s)
    ensures s[0] == ERR_PREFIX ==> ParseRaw(s) == ParseErr(s)
    ensures s[0] == INT_PREFIX ==> ParseRaw(s) == ParseInteger(s)
    ensures s[0] == BULK_PREFIX ==> ParseRaw(s) == ParseBulkStr(s)
    ensures s[0] == ARR_PREFIX ==> ParseRaw(s) == ParseArr(s)
  {
  }

  /** `+` gives a simple string whose text is exactly the bytes before the first CR;
      the text holds no CR (it may hold a bare LF) and is valid UTF-8. */
  lemma StrExactly(s: Bytes, text: Bytes, rest: Bytes)
    ensures ParseRaw(s) == Some(Parsed(Str(text), rest)) <==>
              s == [STR_PREFIX] + text + CRLF + rest && CR !in text && ValidUtf8(text)
  {
    if s == [STR_PREFIX] + text + CRLF + rest && CR !in text && ValidUtf8(text) {
      PsOf(STR_PREFIX, text, rest);
      assert s[0] == STR_PREFIX;
      Dispatch(s);
    }
  }

  /** `-` gives an error whose text is exactly the bytes before the first CR. */
  lemma ErrorExactly(s: Bytes, text: Bytes, rest: Bytes)
    ensures ParseRaw(s) == Some(Parsed(Error(text), rest)) <==>
              s == [ERR_PREFIX] + text + CRLF + rest && CR !in text && ValidUtf8(text)
  {
    if s == [ERR_PREFIX] + text + CRLF + rest && CR !in text && ValidUtf8(text) {
      PsOf(ERR_PREFIX, text, rest);
      assert s[0] == ERR_PREFIX;
      Dispatch(s);
    }
  }

  /** `:` gives an integer exactly when the line parses as a signed 64-bit decimal. */
  lemma IntegerLine(line: Bytes, rest: Bytes)
    requires CR !in line
    ensures ParseRaw([INT_PREFIX] + line + CRLF + rest) ==
              match ParseI64(line)
              case Some(n) => Some(Parsed(Integer(n), rest))
              case None => None
  {
    var s := [INT_PREFIX] + line + CRLF + rest;
    PiOf(INT_PREFIX, line, rest);
    assert s[0] == INT_PREFIX;
    Dispatch(s);
  }

  /** After a `$` header line, the rest of the value is read by `BulkBody`; a header
      that is not a signed 64-bit decimal fails. */
  lemma BulkHeader(header: Bytes, rest: Bytes)
    requires CR !in header
    ensures ParseRaw([BULK_PREFIX] + header + CRLF + rest) ==
              match ParseI64(header)
              case Some(n) => BulkBody(n, rest)
              case None => None
  {
    var s := [BULK_PREFIX] + header + CRLF + rest;
    PiOf(BULK_PREFIX, header, rest);
    assert s[0] == BULK_PREFIX;
    Dispatch(s);
  }

  /** After a `*` header line, the rest of the value is read by `ArrBody`; a header
      that is not a signed 64-bit decimal fails. */
  lemma ArrHeader(header: Bytes, rest: Bytes)
    requires CR !in header
    ensures ParseRaw([ARR_PREFIX] + header + CRLF + rest) ==
              match ParseI64(header)
              case Some(n) => ArrBody(n, rest)
              case None => None
  {
    var s := [ARR_PREFIX] + header + CRLF + rest;
    PiOf(ARR_PREFIX, header, rest);
    assert s[0] == ARR_PREFIX;
    Dispatch(s);
  }

  /** A bulk length of -1 (in any spelling that parses to -1) is the null bulk string,
      and nothing after the header is read. */
  lemma BulkNull(header: Bytes, rest: Bytes)
    requires CR !in header && ParseI64(header) == Some(-1)
    ensures ParseRaw([BULK_PREFIX] + header + CRLF + rest) == Some(Parsed(BulkStr(None), rest))
  {
    BulkHeader(header, rest);
  }

  /** For a bulk length m >= 0 the payload is exactly the next m bytes, whatever they
      hold (CR and LF included), and they must be followed by CRLF. */
  lemma BulkPayload(header: Bytes, m: i64, rest: Bytes)
    requires CR !in header && ParseI64(header) == Some(m) && m >= 0
    ensures ParseRaw([BULK_PREFIX] + header + CRLF + rest) ==
              if |rest| >= m + 2 && rest[m..m + 2] == CRLF
              then Some(Parsed(BulkStr(Some(rest[..m])), rest[m + 2..]))
              else None
  {
    BulkHeader(header, rest);
    BulkBodyOf(m, rest);
  }

  lemma BulkBodyOf(m: i64, rest: Bytes)
    requires m >= 0
    ensures BulkBody(m, rest) ==
              if |rest| >= m + 2 && rest[m..m + 2] == CRLF
              then Some(Parsed(BulkStr(Some(rest[..m])), rest[m + 2..]))
              else None
  {
    assert AsUsize(m) == m;
  }

  /** Any negative bulk length other than -1 fails: the `as usize` cast turns it into a
      length of at least 2^63, more than any buffer holds. */
  lemma BulkNegativeFails(header: Bytes, m: i64, rest: Bytes)
    requires CR !in header && ParseI64(header) == Some(m) && m < -1
    requires |rest| < I64_LIMIT
    ensures ParseRaw([BULK_PREFIX] + header + CRLF + rest) == None
  {
    BulkHeader(header, rest);
  }

  /** An array count of -1 is the null array. */
  lemma ArrNull(header: Bytes, rest: Bytes)
    requires CR !in header && ParseI64(header) == Some(-1)
    ensures ParseRaw([ARR_PREFIX] + header + CRLF + rest) == Some(Parsed(NullArr, rest))
  {
    ArrHeader(header, rest);
  }

  /** A count m >= 0 reads exactly m values after the header. */
  lemma ArrElements(header: Bytes, m: i64, rest: Bytes)
    requires CR !in header && ParseI64(header) == Some(m) && m >= 0
    ensures ParseRaw([ARR_PREFIX] + header + CRLF + rest) ==
              match ParseElements(rest, m)
              case Some(p) => Some(Parsed(Arr(p.value), p.rest))
              case None => None
  {
    ArrHeader(header, rest);
  }

  /** Any negative count other than -1 fails: the cast count exceeds the number of
      values the buffer can hold, since each value takes at least one byte. */
  lemma ArrNegativeFails(header: Bytes, m: i64, rest: Bytes)
    requires CR !in header && ParseI64(header) == Some(m) && m < -1
    requires |rest| < I64_LIMIT
    ensures ParseRaw([ARR_PREFIX] + header + CRLF + rest) == None
  {
    ArrHeader(header, rest);
  }

  // ---------------------------------------------------------------------------
  // Array elements
  // ---------------------------------------------------------------------------

  /** Reading one element is reading one value. */
  lemma ElementsOne(s: Bytes, v: RespType, r: Bytes)
    ensures ParseElements(s, 1) == Some(Parsed([v], r)) <==> ParseRaw(s) == Some(Parsed(v, r))
  {
    if ParseRaw(s) == Some(Parsed(v, r)) {
      ElementsCons(s, 0, v, r, [], r);
      assert [v] + [] == [v];
    }
    if ParseElements(s, 1) == Some(Parsed([v], r)) {
      var v', mid, ws := ElementsUncons(s, 0, [v], r);
      assert ParseElements(mid, 0) == Some(Parsed([], mid));
      assert ws == [] && mid == r;
      assert v' == ([v'] + ws)[0] == v;
    }
  }

  /** One more element in front: a value followed by m values is m + 1 values. */
  lemma ElementsCons(s: Bytes, m: nat, v: RespType, mid: Bytes, vs: seq<RespType>, r: Bytes)
    requires ParseRaw(s) == Some(Parsed(v, mid))
    requires ParseElements(mid, m) == Some(Parsed(vs, r))
    ensures ParseElements(s, m + 1) == Some(Parsed([v] + vs, r))
  {
  }

  /** Conversely, the first of n + 1 elements is one value, and the other n follow it. */
  lemma ElementsUncons(s: Bytes, n: nat, vs: seq<RespType>, r: Bytes)
    returns (v: RespType, mid: Bytes, ws: seq<RespType>)
    requires ParseElements(s, n + 1) == Some(Parsed(vs, r))
    ensures ParseRaw(s) == Some(Parsed(v, mid))
    ensures ParseElements(mid, n) == Some(Parsed(ws, r))
    ensures vs == [v] + ws
  {
    var first := ParseRaw(s).value;
    var others := ParseElements(first.rest, n).value;
    v, mid, ws := first.value, first.rest, others.value;
  }

  // ---------------------------------------------------------------------------
  // Trailing bytes
  // ---------------------------------------------------------------------------

  lemma PsExtend(c: byte, s: Bytes, t: Bytes)
    requires Ps(c, s).Some?
    ensures Ps(c, s + t) == Some(Parsed(Ps(c, s).value.value, Ps(c, s).value.rest + t))
  {
    var p := Ps(c, s).value;
    assert s + t == [c] + p.value + CRLF + (p.rest + t);
    PsOf(c, p.value, p.rest + t);
  }

  lemma PiExtend(c: byte, s: Bytes, t: Bytes)
    requires Pi(c, s).Some?
    ensures Pi(c, s + t) == Some(Parsed(Pi(c, s).value.value, Pi(c, s).value.rest + t))
  {
    var l := Line(s[1..]).value;
    assert s == [c] + l.value + CRLF + l.rest;
    assert s + t == [c] + l.value + CRLF + (l.rest + t);
    PiOf(c, l.value, l.rest + t);
  }

  lemma StrExtend(s: Bytes, t: Bytes, v: RespType, r: Bytes)
    requires ParseStr(s) == Some(Parsed(v, r))
    ensures ParseStr(s + t) == Some(Parsed(v, r + t))
  {
    PsExtend(STR_PREFIX, s, t);
  }

  lemma ErrExtend(s: Bytes, t: Bytes, v: RespType, r: Bytes)
    requires ParseErr(s) == Some(Parsed(v, r))
    ensures ParseErr(s + t) == Some(Parsed(v, r + t))
  {
    PsExtend(ERR_PREFIX, s, t);
  }

  lemma IntegerExtend(s: Bytes, t: Bytes, v: RespType, r: Bytes)
    requires ParseInteger(s) == Some(Parsed(v, r))
    ensures ParseInteger(s + t) == Some(Parsed(v, r + t))
  {
    PiExtend(INT_PREFIX, s, t);
  }

  lemma BulkBodyExtend(n: i64, rest: Bytes, t: Bytes, v: RespType, r: Bytes)
    requires BulkBody(n, rest) == Some(Parsed(v, r))
    ensures BulkBody(n, rest + t) == Some(Parsed(v, r + t))
  {
    if n != -1 {
      var m := AsUsize(n);
      assert (rest + t)[m..m + 2] == rest[m..m + 2];
      assert (rest + t)[..m] == rest[..m];
      assert (rest + t)[m + 2..] == rest[m + 2..] + t;
    }
  }

  lemma BulkExtend(s: Bytes, t: Bytes, v: RespType, r: Bytes)
    requires ParseBulkStr(s) == Some(Parsed(v, r))
    ensures ParseBulkStr(s + t) == Some(Parsed(v, r + t))
  {
    PiExtend(BULK_PREFIX, s, t);
    var header := Pi(BULK_PREFIX, s).value;
    BulkBodyExtend(header.value, header.rest, t, v, r);
  }

  /** Bytes after a decoded value are returned untouched: appending t to the input
      appends t to the remainder and changes nothing else. */
  lemma {:induction false} ExtendRaw(s: Bytes, t: Bytes, v: RespType, r: Bytes)
    requires ParseRaw(s) == Some(Parsed(v, r))
    ensures ParseRaw(s + t) == Some(Parsed(v, r + t))
    decreases |s|, 1
  {
    assert (s + t)[0] == s[0];
    Dispatch(s);
    Dispatch(s + t);
    if s[0] == STR_PREFIX {
      StrExtend(s, t, v, r);
    } else if s[0] == ERR_PREFIX {
      ErrExtend(s, t, v, r);
    } else if s[0] == INT_PREFIX {
      IntegerExtend(s, t, v, r);
    } else if s[0] == BULK_PREFIX {
      BulkExtend(s, t, v, r);
    } else {
      ArrExtend(s, t, v, r);
    }
  }

  lemma {:induction false} ArrExtend(s: Bytes, t: Bytes, v: RespType, r: Bytes)
    requires ParseArr(s) == Some(Parsed(v, r))
    ensures ParseArr(s + t) == Some(Parsed(v, r + t))
    decreases |s|, 0
  {
    PiExtend(ARR_PREFIX, s, t);
    var header := Pi(ARR_PREFIX, s).value;
    ArrBodyExtend(header.value, header.rest, t, v, r);
  }

  lemma {:induction false} ArrBodyExtend(n: i64, rest: Bytes, t: Bytes, v: RespType, r: Bytes)
    requires ArrBody(n, rest) == Some(Parsed(v, r))
    ensures ArrBody(n, rest + t) == Some(Parsed(v, r + t))
    decreases |rest|, 4
  {
    if n != -1 {
      var elems := ParseElements(rest, AsUsize(n)).value;
      ExtendElements(rest, AsUsize(n), t, elems.value, elems.rest);
    }
  }

  lemma {:induction false} ExtendElements(s: Bytes, m: nat, t: Bytes, vs: seq<RespType>, r: Bytes)
    requires ParseElements(s, m) == Some(Parsed(vs, r))
    ensures ParseElements(s + t, m) == Some(Parsed(vs, r + t))
    decreases |s|, 3
  {
    if m > 0 {
      var n: nat := m - 1;
      var v, mid, ws := ElementsUncons(s, n, vs, r);
      ExtendElements(mid, n, t, ws, r);
      ExtendFirst(s, t, n, v, mid, ws, r);
    }
  }

  /** The step of `ExtendElements`: the first value, extended, followed by the others, extended. */
  lemma {:induction false} ExtendFirst(s: Bytes, t: Bytes, m: nat, v: RespType, mid: Bytes,
                                       vs: seq<RespType>, r: Bytes)
    requires ParseRaw(s) == Some(Parsed(v, mid))
    requires ParseElements(mid + t, m) == Some(Parsed(vs, r + t))
    ensures ParseElements(s + t, m + 1) == Some(Parsed([v] + vs, r + t))
    decreases |s|, 2
  {
    ExtendRaw(s, t, v, mid);
    ElementsCons(s + t, m, v, mid + t, vs, r + t);
  }

  /** The form in which the source's own test states it: a value that uses up the whole
      buffer decodes the same with any bytes after it, and those bytes are the remainder. */
  lemma TrailingBytesUntouched(s: Bytes, v: RespType, t: Bytes)
    requires ParseRaw(s) == Some(Parsed(v, []))
    ensures ParseRaw(s + t) == Some(Parsed(v, t))
  {
    ExtendRaw(s, t, v, []);
  }
}
