/** The decoder test cases of src/protocol/resp.rs. Each input is the canonical
    encoding of the expected value, so each case is an instance of the round trip.
    The input is a parameter fixed by the precondition, which keeps the verifier from
    evaluating the decoder on the literal byte by byte. */
module RespExamples {
  import opened Wrappers
  import opened Text
  import opened Resp
  import opened RespProperties
  import opened RespEncoding

  const FOO: Bytes := Ascii("foo")
  const WRONG: Bytes := Ascii("wrong")

  /** `+foo\r\n` is the simple string "foo". */
  lemma SimpleString(s: Bytes)
    requires s == Ascii("+foo\r\n")
    ensures ParseRaw(s) == Some(Parsed(Str(FOO), []))
  {
    EncodeFoo();
    DecodeEncode(Str(FOO));
  }

  lemma EncodeFoo()
    ensures Encodable(Str(FOO)) && Encode(Str(FOO)) == Ascii("+foo\r\n")
  {
    AsciiIsUtf8(FOO);
  }

  /** `-wrong\r\n` is the error "wrong". */
  lemma ErrorString(s: Bytes)
    requires s == Ascii("-wrong\r\n")
    ensures ParseRaw(s) == Some(Parsed(Error(WRONG), []))
  {
    EncodeWrong();
    DecodeEncode(Error(WRONG));
  }

  lemma EncodeWrong()
    ensures Encodable(Error(WRONG)) && Encode(Error(WRONG)) == Ascii("-wrong\r\n")
  {
    AsciiIsUtf8(WRONG);
  }

  /** `:-10\r\n` is the integer -10. */
  lemma NegativeInteger(s: Bytes)
    requires s == Ascii(":-10\r\n")
    ensures ParseRaw(s) == Some(Parsed(Integer(-10), []))
  {
    assert IntText(-10) == Ascii("-10");
    assert Encode(Integer(-10)) == s;
    DecodeEncode(Integer(-10));
  }

  /** `:65535\r\n` is the integer 65535. */
  lemma PositiveInteger(s: Bytes)
    requires s == Ascii(":65535\r\n")
    ensures ParseRaw(s) == Some(Parsed(Integer(65535), []))
  {
    assert IntText(65535) == Ascii("65535");
    assert Encode(Integer(65535)) == s;
    DecodeEncode(Integer(65535));
  }

  /** `$10\r\nabcdefghij\r\n` is a bulk string of those ten bytes. */
  lemma TenByteBulkString(s: Bytes)
    requires s == Ascii("$10\r\nabcdefghij\r\n")
    ensures ParseRaw(s) == Some(Parsed(BulkStr(Some(Ascii("abcdefghij"))), []))
  {
    var v := BulkStr(Some(Ascii("abcdefghij")));
    assert IntText(10) == Ascii("10");
    assert Encode(v) == s;
    DecodeEncode(v);
  }

  /** `$-1\r\n` is the null bulk string. */
  lemma NullBulkString(s: Bytes)
    requires s == Ascii("$-1\r\n")
    ensures ParseRaw(s) == Some(Parsed(BulkStr(None), []))
  {
    assert IntText(-1) == Ascii("-1");
    assert Encode(BulkStr(None)) == s;
    DecodeEncode(BulkStr(None));
  }

  /** `$0\r\n\r\n` is the empty bulk string, which is not the null one. */
  lemma EmptyBulkString(s: Bytes)
    requires s == Ascii("$0\r\n\r\n")
    ensures ParseRaw(s) == Some(Parsed(BulkStr(Some([])), []))
    ensures ParseRaw(s).value.value != BulkStr(None)
  {
    assert IntText(0) == Ascii("0");
    assert Encode(BulkStr(Some([]))) == s;
    DecodeEncode(BulkStr(Some([])));
  }

  /** `*-1\r\n` is the null array. */
  lemma NullArray(s: Bytes)
    requires s == Ascii("*-1\r\n")
    ensures ParseRaw(s) == Some(Parsed(NullArr, []))
  {
    assert IntText(-1) == Ascii("-1");
    assert Encode(NullArr) == s;
    DecodeEncode(NullArr);
  }

  /** `+foo\r\ntt` is the simple string "foo" with `tt` left over. */
  lemma ExtraBytes(s: Bytes)
    requires s == Ascii("+foo\r\ntt")
    ensures ParseRaw(s) == Some(Parsed(Str(FOO), Ascii("tt")))
  {
    EncodeFoo();
    AsciiConcat("+foo\r\n", "tt");
    assert "+foo\r\n" + "tt" == "+foo\r\ntt";
    RoundTrip(Str(FOO), Ascii("tt"));
  }

  // ---------------------------------------------------------------------------
  // Arrays
  // ---------------------------------------------------------------------------

  /** The encodings of two values, one after the other. */
  lemma EncodeAllTwo(a: RespType, b: RespType)
    ensures EncodeAll([a, b]) == Encode(a) + Encode(b)
  {
    assert [a, b][1..] == [b] && [b][1..] == [];
    assert EncodeAll([b]) == Encode(b) + [];
  }

  /** The encodings of three values, one after the other. */
  lemma EncodeAllThree(a: RespType, b: RespType, c: RespType)
    ensures EncodeAll([a, b, c]) == Encode(a) + Encode(b) + Encode(c)
  {
    assert [a, b, c][1..] == [b, c];
    EncodeAllTwo(b, c);
  }

  /** `*2\r\n+foo\r\n-wrong\r\n` is an array of a simple string and an error, in that order. */
  lemma TwoElementArray(s: Bytes)
    requires s == Ascii("*2\r\n+foo\r\n-wrong\r\n")
    ensures ParseRaw(s) == Some(Parsed(Arr([Str(FOO), Error(WRONG)]), []))
  {
    var v := Arr([Str(FOO), Error(WRONG)]);
    EncodeFoo();
    EncodeWrong();
    EncodeAllTwo(Str(FOO), Error(WRONG));
    assert [ARR_PREFIX] + IntText(2) + CRLF == Ascii("*2\r\n");
    assert Encode(v) == Ascii("*2\r\n") + Ascii("+foo\r\n") + Ascii("-wrong\r\n");
    Concat3("*2\r\n", "+foo\r\n", "-wrong\r\n");
    TwoElementText();
    assert Encodable(v) by {
      assert v.elems[0] == Str(FOO) && v.elems[1] == Error(WRONG);
    }
    DecodeEncode(v);
  }

  lemma TwoElementText()
    ensures "*2\r\n" + "+foo\r\n" + "-wrong\r\n" == "*2\r\n+foo\r\n-wrong\r\n"
  {}

  const INNER: RespType := Arr([Integer(1), Integer(-2), Integer(3)])
  const TWE: Bytes := Ascii("twe")
  const QQQ: Bytes := Ascii("qqq")

  lemma EncodeInner()
    ensures Encode(INNER) == Ascii("*3\r\n:1\r\n:-2\r\n:3\r\n")
  {
    EncodeAllThree(Integer(1), Integer(-2), Integer(3));
    assert [ARR_PREFIX] + IntText(3) + CRLF == Ascii("*3\r\n");
    InnerElements();
    Concat4("*3\r\n", ":1\r\n", ":-2\r\n", ":3\r\n");
    InnerText();
  }

  lemma InnerElements()
    ensures Encode(Integer(1)) == Ascii(":1\r\n")
    ensures Encode(Integer(-2)) == Ascii(":-2\r\n")
    ensures Encode(Integer(3)) == Ascii(":3\r\n")
  {
    assert IntText(1) == Ascii("1") && IntText(-2) == Ascii("-2") && IntText(3) == Ascii("3");
  }

  lemma InnerText()
    ensures "*3\r\n" + ":1\r\n" + ":-2\r\n" + ":3\r\n" == "*3\r\n:1\r\n:-2\r\n:3\r\n"
  {}

  lemma EncodeTwe()
    ensures Encode(BulkStr(Some(TWE))) == Ascii("$3\r\ntwe\r\n")
  {
    assert IntText(3) == Ascii("3");
  }

  lemma EncodeQqq()
    ensures Encodable(Error(QQQ)) && Encode(Error(QQQ)) == Ascii("-qqq\r\n")
  {
    AsciiIsUtf8(QQQ);
  }

  lemma NestedText()
    ensures "*3\r\n" + "*3\r\n:1\r\n:-2\r\n:3\r\n" + "$3\r\ntwe\r\n" + "-qqq\r\n"
         == "*3\r\n*3\r\n:1\r\n:-2\r\n:3\r\n$3\r\ntwe\r\n-qqq\r\n"
  {}

  /** `*3\r\n*3\r\n:1\r\n:-2\r\n:3\r\n$3\r\ntwe\r\n-qqq\r\n` is an array holding an array of
      three integers, a bulk string and an error, in that order. */
  lemma NestedArray(s: Bytes)
    requires s == Ascii("*3\r\n*3\r\n:1\r\n:-2\r\n:3\r\n$3\r\ntwe\r\n-qqq\r\n")
    ensures ParseRaw(s) == Some(Parsed(Arr([INNER, BulkStr(Some(TWE)), Error(QQQ)]), []))
  {
    var v := Arr([INNER, BulkStr(Some(TWE)), Error(QQQ)]);
    EncodeInner();
    EncodeTwe();
    EncodeQqq();
    EncodeAllThree(INNER, BulkStr(Some(TWE)), Error(QQQ));
    assert [ARR_PREFIX] + IntText(3) + CRLF == Ascii("*3\r\n");
    assert Encode(v) == Ascii("*3\r\n") + Ascii("*3\r\n:1\r\n:-2\r\n:3\r\n") + Ascii("$3\r\ntwe\r\n") + Ascii("-qqq\r\n");
    Concat4("*3\r\n", "*3\r\n:1\r\n:-2\r\n:3\r\n", "$3\r\ntwe\r\n", "-qqq\r\n");
    NestedText();
    assert Encodable(INNER) by {
      assert INNER.elems[0] == Integer(1) && INNER.elems[1] == Integer(-2) && INNER.elems[2] == Integer(3);
    }
    assert Encodable(v) by {
      assert v.elems[0] == INNER && v.elems[1] == BulkStr(Some(TWE)) && v.elems[2] == Error(QQQ);
    }
    DecodeEncode(v);
  }

  lemma Concat3(x: string, y: string, z: string)
    requires forall i | 0 <= i < |x| :: x[i] as int < 0x80
    requires forall i | 0 <= i < |y| :: y[i] as int < 0x80
    requires forall i | 0 <= i < |z| :: z[i] as int < 0x80
    ensures Ascii(x + y + z) == Ascii(x) + Ascii(y) + Ascii(z)
  {
    AsciiConcat(x, y);
    AsciiConcat(x + y, z);
  }

  lemma Concat4(w: string, x: string, y: string, z: string)
    requires forall i | 0 <= i < |w| :: w[i] as int < 0x80
    requires forall i | 0 <= i < |x| :: x[i] as int < 0x80
    requires forall i | 0 <= i < |y| :: y[i] as int < 0x80
    requires forall i | 0 <= i < |z| :: z[i] as int < 0x80
    ensures Ascii(w + x + y + z) == Ascii(w) + Ascii(x) + Ascii(y) + Ascii(z)
  {
    Concat3(w, x, y);
    AsciiConcat(w + x + y, z);
  }
}
