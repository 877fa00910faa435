/** The interpreter test cases of src/command/commands.rs: each request is decoded
    from its wire form and then interpreted. Each case is split into the encoding of its
    elements, the encoding of the array, its decoding, and its interpretation. */
module CommandExamples {
  import opened Wrappers
  import opened Text
  import opened Resp
  import opened RespEncoding
  import opened RespExamples
  import opened Commands
  import opened CommandProperties

  const MYKEY: Bytes := Ascii("mykey")
  const HELLO: Bytes := Ascii("Hello")
  const THISKEY: Bytes := Ascii("thiskey")
  const DIGITS: Bytes := Ascii("12345")

  const GET_FOO: RespType := Arr([RespType.Str(GET_NAME), RespType.Str(FOO)])
  const SET_FOO: RespType := Arr([RespType.Str(SET_NAME), RespType.Str(FOO), Integer(456)])
  const SET_MYKEY: RespType := Arr([Bulk(SET_NAME), Bulk(MYKEY), Bulk(HELLO)])
  const GETSET_THISKEY: RespType := Arr([Bulk(GETSET_NAME), Bulk(THISKEY), Bulk(DIGITS)])

  /** The header of an array of three elements. */
  lemma ThreeHeader()
    ensures [ARR_PREFIX] + IntText(3) + CRLF == Ascii("*3\r\n")
  {
  }

  /** The wire form of a bulk string of three to nine bytes. */
  lemma EncodeShortBulk(b: Bytes, text: string)
    requires 3 <= |b| <= 9
    requires forall i | 0 <= i < |text| :: text[i] as int < 0x80
    requires Ascii(text) == [BULK_PREFIX] + [ZERO_DIGIT + |b|] + CRLF + b + CRLF
    ensures Encode(BulkStr(Some(b))) == Ascii(text)
  {
  }

  // ---------------------------------------------------------------------------
  // GET foo, as simple strings
  // ---------------------------------------------------------------------------

  /** `*2\r\n+get\r\n+foo\r\n` decodes to an array of two simple strings and is GET foo. */
  lemma GetFoo(s: Bytes)
    requires s == Ascii("*2\r\n+get\r\n+foo\r\n")
    ensures ParseRaw(s) == Some(Parsed(GET_FOO, []))
    ensures Interpret(GET_FOO) == Ok(Get(FOO))
  {
    Concat3("*2\r\n", "+get\r\n", "+foo\r\n");
    GetFooText();
    EncodeGetFoo();
    DecodeEncode(GET_FOO);
    InterpretGetFoo();
  }

  lemma GetFooText()
    ensures "*2\r\n" + "+get\r\n" + "+foo\r\n" == "*2\r\n+get\r\n+foo\r\n"
  {}

  lemma EncodeGetFoo()
    ensures Encodable(GET_FOO)
    ensures Encode(GET_FOO) == Ascii("*2\r\n") + Ascii("+get\r\n") + Ascii("+foo\r\n")
  {
    var v := GET_FOO;
    assert Ascii("get") == GET_NAME;
    AsciiIsUtf8(GET_NAME);
    EncodeFoo();
    EncodeAllTwo(v.elems[0], v.elems[1]);
    assert v.elems[0] == RespType.Str(GET_NAME) && v.elems[1] == RespType.Str(FOO);
  }

  lemma InterpretGetFoo()
    ensures Interpret(GET_FOO) == Ok(Get(FOO))
  {
    var args := GET_FOO.elems[1..];
    assert args == [RespType.Str(FOO)];
    CommandDispatch(GET_NAME, args);
  }

  // ---------------------------------------------------------------------------
  // SET foo 456, as simple strings and an integer
  // ---------------------------------------------------------------------------

  /** `*3\r\n+set\r\n+foo\r\n:456\r\n` is SET foo to the number 456, with no expiry or flag. */
  lemma SetFooNumber(s: Bytes)
    requires s == Ascii("*3\r\n+set\r\n+foo\r\n:456\r\n")
    ensures ParseRaw(s) == Some(Parsed(SET_FOO, []))
    ensures Interpret(SET_FOO) == Ok(Set(SetCmd(FOO, Num(456), None, None)))
  {
    Concat4("*3\r\n", "+set\r\n", "+foo\r\n", ":456\r\n");
    SetFooText();
    EncodeSetFoo();
    EncodableSetFoo();
    DecodeEncode(SET_FOO);
    InterpretSetFoo();
  }

  lemma SetFooText()
    ensures "*3\r\n" + "+set\r\n" + "+foo\r\n" + ":456\r\n" == "*3\r\n+set\r\n+foo\r\n:456\r\n"
  {}

  lemma SetFooElements()
    ensures Encode(RespType.Str(SET_NAME)) == Ascii("+set\r\n")
    ensures Encode(RespType.Str(FOO)) == Ascii("+foo\r\n")
    ensures Encode(Integer(456)) == Ascii(":456\r\n")
  {
    EncodeFoo();
    assert IntText(456) == Ascii("456");
  }

  lemma EncodeSetFoo()
    ensures Encode(SET_FOO) == Ascii("*3\r\n") + Ascii("+set\r\n") + Ascii("+foo\r\n") + Ascii(":456\r\n")
  {
    var v := SET_FOO;
    SetFooElements();
    ThreeHeader();
    EncodeAllThree(v.elems[0], v.elems[1], v.elems[2]);
  }

  lemma EncodableSetFoo()
    ensures Encodable(SET_FOO)
  {
    var v := SET_FOO;
    AsciiIsUtf8(SET_NAME);
    EncodeFoo();
    assert v.elems[0] == RespType.Str(SET_NAME) && v.elems[1] == RespType.Str(FOO) && v.elems[2] == Integer(456);
  }

  lemma InterpretSetFoo()
    ensures Interpret(SET_FOO) == Ok(Set(SetCmd(FOO, Num(456), None, None)))
  {
    var args := SET_FOO.elems[1..];
    assert args == [RespType.Str(FOO), Integer(456)];
    CommandDispatch(SET_NAME, args);
    SetKeyValueOnly(args, FOO, Num(456));
  }

  // ---------------------------------------------------------------------------
  // SET mykey Hello, as bulk strings
  // ---------------------------------------------------------------------------

  /** `*3\r\n$3\r\nset\r\n$5\r\nmykey\r\n$5\r\nHello\r\n` is SET mykey to the bulk bytes `Hello`. */
  lemma SetBulk(s: Bytes)
    requires s == Ascii("*3\r\n$3\r\nset\r\n$5\r\nmykey\r\n$5\r\nHello\r\n")
    ensures ParseRaw(s) == Some(Parsed(SET_MYKEY, []))
    ensures Interpret(SET_MYKEY) == Ok(Set(SetCmd(MYKEY, BSStr(HELLO), None, None)))
  {
    Concat4("*3\r\n", "$3\r\nset\r\n", "$5\r\nmykey\r\n", "$5\r\nHello\r\n");
    SetBulkText();
    EncodeSetMykey();
    EncodableSetMykey();
    DecodeEncode(SET_MYKEY);
    InterpretSetMykey();
  }

  lemma SetBulkText()
    ensures "*3\r\n" + "$3\r\nset\r\n" + "$5\r\nmykey\r\n" + "$5\r\nHello\r\n" == "*3\r\n$3\r\nset\r\n$5\r\nmykey\r\n$5\r\nHello\r\n"
  {}

  lemma SetMykeyElements()
    ensures Encode(Bulk(SET_NAME)) == Ascii("$3\r\nset\r\n")
    ensures Encode(Bulk(MYKEY)) == Ascii("$5\r\nmykey\r\n")
    ensures Encode(Bulk(HELLO)) == Ascii("$5\r\nHello\r\n")
  {
    EncodeShortBulk(SET_NAME, "$3\r\nset\r\n");
    EncodeShortBulk(MYKEY, "$5\r\nmykey\r\n");
    EncodeShortBulk(HELLO, "$5\r\nHello\r\n");
  }

  lemma EncodeSetMykey()
    ensures Encode(SET_MYKEY)
         == Ascii("*3\r\n") + Ascii("$3\r\nset\r\n") + Ascii("$5\r\nmykey\r\n") + Ascii("$5\r\nHello\r\n")
  {
    var v := SET_MYKEY;
    SetMykeyElements();
    ThreeHeader();
    EncodeAllThree(v.elems[0], v.elems[1], v.elems[2]);
  }

  lemma EncodableSetMykey()
    ensures Encodable(SET_MYKEY)
  {
    var v := SET_MYKEY;
    assert v.elems[0] == Bulk(SET_NAME) && v.elems[1] == Bulk(MYKEY) && v.elems[2] == Bulk(HELLO);
  }

  lemma InterpretSetMykey()
    ensures Interpret(SET_MYKEY) == Ok(Set(SetCmd(MYKEY, BSStr(HELLO), None, None)))
  {
    AsciiIsUtf8(SET_NAME);
    AsciiIsUtf8(MYKEY);
    var args := SET_MYKEY.elems[1..];
    assert args == [Bulk(MYKEY), Bulk(HELLO)];
    CommandDispatch(SET_NAME, args);
    SetKeyValueOnly(args, MYKEY, BSStr(HELLO));
  }

  // ---------------------------------------------------------------------------
  // GETSET thiskey 12345, as bulk strings
  // ---------------------------------------------------------------------------

  /** `*3\r\n$6\r\ngetset\r\n$7\r\nthiskey\r\n$5\r\n12345\r\n` is GETSET thiskey to the bulk
      bytes `12345`, not to a number. */
  lemma GetSetBulk(s: Bytes)
    requires s == Ascii("*3\r\n$6\r\ngetset\r\n$7\r\nthiskey\r\n$5\r\n12345\r\n")
    ensures ParseRaw(s) == Some(Parsed(GETSET_THISKEY, []))
    ensures Interpret(GETSET_THISKEY) == Ok(GetSet(THISKEY, BSStr(DIGITS)))
  {
    Concat4("*3\r\n", "$6\r\ngetset\r\n", "$7\r\nthiskey\r\n", "$5\r\n12345\r\n");
    GetSetBulkText();
    EncodeGetSetThiskey();
    EncodableGetSetThiskey();
    DecodeEncode(GETSET_THISKEY);
    InterpretGetSetThiskey();
  }

  lemma GetSetBulkText()
    ensures "*3\r\n" + "$6\r\ngetset\r\n" + "$7\r\nthiskey\r\n" + "$5\r\n12345\r\n" == "*3\r\n$6\r\ngetset\r\n$7\r\nthiskey\r\n$5\r\n12345\r\n"
  {}

  lemma GetSetThiskeyElements()
    ensures Encode(Bulk(GETSET_NAME)) == Ascii("$6\r\ngetset\r\n")
    ensures Encode(Bulk(THISKEY)) == Ascii("$7\r\nthiskey\r\n")
    ensures Encode(Bulk(DIGITS)) == Ascii("$5\r\n12345\r\n")
  {
    EncodeShortBulk(GETSET_NAME, "$6\r\ngetset\r\n");
    EncodeShortBulk(THISKEY, "$7\r\nthiskey\r\n");
    EncodeShortBulk(DIGITS, "$5\r\n12345\r\n");
  }

  lemma EncodeGetSetThiskey()
    ensures Encode(GETSET_THISKEY)
         == Ascii("*3\r\n") + Ascii("$6\r\ngetset\r\n") + Ascii("$7\r\nthiskey\r\n") + Ascii("$5\r\n12345\r\n")
  {
    var v := GETSET_THISKEY;
    GetSetThiskeyElements();
    ThreeHeader();
    EncodeAllThree(v.elems[0], v.elems[1], v.elems[2]);
  }

  lemma EncodableGetSetThiskey()
    ensures Encodable(GETSET_THISKEY)
  {
    var v := GETSET_THISKEY;
    assert v.elems[0] == Bulk(GETSET_NAME) && v.elems[1] == Bulk(THISKEY) && v.elems[2] == Bulk(DIGITS);
  }

  lemma InterpretGetSetThiskey()
    ensures Interpret(GETSET_THISKEY) == Ok(GetSet(THISKEY, BSStr(DIGITS)))
  {
    AsciiIsUtf8(GETSET_NAME);
    AsciiIsUtf8(THISKEY);
    var v := GETSET_THISKEY;
    var args := v.elems[1..];
    assert args == [Bulk(THISKEY), Bulk(DIGITS)];
    assert GetString(v.elems[0]) == Ok(GETSET_NAME);
    assert Interpret(v) == Command(GETSET_NAME, args);
    CommandDispatch(GETSET_NAME, args);
    assert GetString(args[0]) == Ok(THISKEY) && ValueFrom(args[1]) == Ok(BSStr(DIGITS));
  }
}
