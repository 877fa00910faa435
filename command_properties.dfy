/** What the command interpreter of src/command/commands.rs promises: SET's argument
    grammar case by case, the dispatcher's error cases, soundness (every accepted
    request carries its command's arguments where the grammar puts them), and a
    reference request encoder that the interpreter inverts. */
module CommandProperties {
  import opened Wrappers
  import opened Text
  import opened Errors
  import opened Resp
  import opened RespEncoding
  import opened Commands

  // ---------------------------------------------------------------------------
  // SET
  // ---------------------------------------------------------------------------

  /** SET fails for want of arguments exactly when it has fewer than two. */
  lemma SetArity(args: seq<RespType>)
    ensures SetSpec(args) == Err(LackArgs(2, |args|)) <==> |args| < 2
  {
  }

  /** The key is read before the value: a bad key is reported even when the value is bad too. */
  lemma SetKeyFirst(args: seq<RespType>)
    requires |args| >= 2 && GetString(args[0]).Err?
    ensures SetSpec(args) == Err(GetString(args[0]).error)
  {
  }

  /** With a good key, a bad value is the error. */
  lemma SetValueSecond(args: seq<RespType>, key: Bytes)
    requires |args| >= 2 && GetString(args[0]) == Ok(key) && ValueFrom(args[1]).Err?
    ensures SetSpec(args) == Err(ValueFrom(args[1]).error)
  {
  }

  /** A key and a value alone set neither an expiry nor a flag. */
  lemma SetKeyValueOnly(args: seq<RespType>, key: Bytes, value: Value)
    requires |args| == 2 && GetString(args[0]) == Ok(key) && ValueFrom(args[1]) == Ok(value)
    ensures SetSpec(args) == Ok(SetCmd(key, value, None, None))
  {
  }

  /** With a single argument after the value, no expiry is read, even from `ex` or
      `px`; that argument is the flag position. */
  lemma SetThreeArgs(args: seq<RespType>, key: Bytes, value: Value)
    requires |args| == 3 && GetString(args[0]) == Ok(key) && ValueFrom(args[1]) == Ok(value)
    ensures SetSpec(args).Ok? <==> GetString(args[2]).Ok?
    ensures SetSpec(args).Ok? ==> SetSpec(args).value == SetCmd(key, value, None, FlagSpec(args[2..]).value)
    ensures GetString(args[2]).Err? ==> SetSpec(args) == Err(GetString(args[2]).error)
  {
  }

  /** `ex N` sets an expiry of N seconds, that is N * 1000 milliseconds, and the flag
      is read from the argument after N. */
  lemma SetExpirySeconds(args: seq<RespType>, key: Bytes, value: Value, amount: Bytes, n: u64)
    requires |args| >= 4 && GetString(args[0]) == Ok(key) && ValueFrom(args[1]) == Ok(value)
    requires GetString(args[2]) == Ok(EX_ARG)
    requires GetString(args[3]) == Ok(amount) && ParseU64(amount) == Some(n)
    ensures SetSpec(args).Ok? <==> FlagSpec(args[4..]).Ok?
    ensures SetSpec(args).Ok? ==>
              SetSpec(args).value == SetCmd(key, value, Some(n * 1000), FlagSpec(args[4..]).value)
    ensures |args| > 4 && GetString(args[4]).Err? ==> SetSpec(args) == Err(GetString(args[4]).error)
  {
  }

  /** `px N` sets an expiry of N milliseconds, and the flag is read from the argument after N. */
  lemma SetExpiryMillis(args: seq<RespType>, key: Bytes, value: Value, amount: Bytes, n: u64)
    requires |args| >= 4 && GetString(args[0]) == Ok(key) && ValueFrom(args[1]) == Ok(value)
    requires GetString(args[2]) == Ok(PX_ARG)
    requires GetString(args[3]) == Ok(amount) && ParseU64(amount) == Some(n)
    ensures SetSpec(args).Ok? <==> FlagSpec(args[4..]).Ok?
    ensures SetSpec(args).Ok? ==>
              SetSpec(args).value == SetCmd(key, value, Some(n), FlagSpec(args[4..]).value)
    ensures |args| > 4 && GetString(args[4]).Err? ==> SetSpec(args) == Err(GetString(args[4]).error)
  {
  }

  /** After `ex` or `px`, an amount that is not a string, or not an unsigned decimal, fails SET. */
  lemma SetBadAmount(args: seq<RespType>, key: Bytes, value: Value)
    requires |args| >= 4 && GetString(args[0]) == Ok(key) && ValueFrom(args[1]) == Ok(value)
    requires GetString(args[2]) == Ok(EX_ARG) || GetString(args[2]) == Ok(PX_ARG)
    ensures GetString(args[3]).Err? ==> SetSpec(args) == Err(GetString(args[3]).error)
    ensures GetString(args[3]).Ok? && ParseU64(GetString(args[3]).value).None? ==>
              SetSpec(args) == Err(ParseIntErr)
  {
  }

  /** With two or more arguments after the value, the first of them must be a string. */
  lemma SetExpiryNotString(args: seq<RespType>, key: Bytes, value: Value)
    requires |args| >= 4 && GetString(args[0]) == Ok(key) && ValueFrom(args[1]) == Ok(value)
    requires GetString(args[2]).Err?
    ensures SetSpec(args) == Err(GetString(args[2]).error)
  {
  }

  /** Any other string in the expiry position sets no expiry and is not consumed: it
      is read again as the flag. */
  lemma SetOtherToken(args: seq<RespType>, key: Bytes, value: Value, token: Bytes)
    requires |args| >= 4 && GetString(args[0]) == Ok(key) && ValueFrom(args[1]) == Ok(value)
    requires GetString(args[2]) == Ok(token) && token != EX_ARG && token != PX_ARG
    ensures SetSpec(args) == Ok(SetCmd(key, value, None, FlagSpec(args[2..]).value))
  {
  }

  /** So `set k v nx ...` is a SET with the NX flag and no expiry. */
  lemma SetFlagInExpiryPosition(args: seq<RespType>, key: Bytes, value: Value)
    requires |args| >= 3 && GetString(args[0]) == Ok(key) && ValueFrom(args[1]) == Ok(value)
    requires GetString(args[2]) == Ok(NX_ARG)
    ensures SetSpec(args) == Ok(SetCmd(key, value, None, Some(NX)))
  {
    assert args[2..][0] == args[2];
  }

  /** The expiry step looks at two arguments at most: on three or more arguments it
      fails as it does on the first three, and otherwise leaves arguments whose first
      is the first of what it leaves of those three. */
  lemma ExpiryIgnoresTail(rest: seq<RespType>)
    requires |rest| >= 3
    ensures ExpirySpec(rest).Err? <==> ExpirySpec(rest[..3]).Err?
    ensures ExpirySpec(rest).Err? ==> ExpirySpec(rest).error == ExpirySpec(rest[..3]).error
    ensures ExpirySpec(rest).Ok? ==>
              var p, q := ExpirySpec(rest).value, ExpirySpec(rest[..3]).value;
              p.expire == q.expire && |p.rest| > 0 && |q.rest| > 0 && p.rest[..1] == q.rest[..1]
  {
    var short := rest[..3];
    assert short[0] == rest[0] && short[1] == rest[1];
    assert rest[2..][..1] == short[2..][..1] && rest[..1] == short[..1];
  }

  /** The flag step looks at one argument at most. */
  lemma FlagIgnoresTail(rest: seq<RespType>)
    requires |rest| > 0
    ensures FlagSpec(rest) == FlagSpec(rest[..1])
  {
    assert rest[..1][0] == rest[0];
  }

  /** SET looks at five arguments at most; the others are ignored. */
  lemma SetIgnoresTail(args: seq<RespType>)
    requires |args| >= 5
    ensures SetSpec(args) == SetSpec(args[..5])
  {
    var short := args[..5];
    assert short[0] == args[0] && short[1] == args[1] && short[2..] == args[2..][..3];
    ExpiryIgnoresTail(args[2..]);
    var e, e' := ExpirySpec(args[2..]), ExpirySpec(short[2..]);
    if e.Ok? {
      FlagIgnoresTail(e.value.rest);
      FlagIgnoresTail(e'.value.rest);
    }
  }

  // ---------------------------------------------------------------------------
  // GET, GETSET, STRLEN, EXISTS
  // ---------------------------------------------------------------------------

  /** GET looks only at its first argument. */
  lemma GetIgnoresExtra(args: seq<RespType>)
    requires |args| > 0
    ensures ParseGet(args) == ParseGet(args[..1])
  {
  }

  /** GETSET, STRLEN and EXISTS demand an exact argument count, and report the wrong
      count as a shortfall even when there are too many arguments. */
  lemma ExactArity(args: seq<RespType>)
    ensures ParseGetSet(args).Ok? ==> |args| == 2
    ensures ParseStrLen(args).Ok? || ParseExists(args).Ok? ==> |args| == 1
    ensures |args| > 2 ==> ParseGetSet(args) == Err(LackArgs(2, |args|))
    ensures |args| > 1 ==> ParseStrLen(args) == Err(LackArgs(1, |args|)) == ParseExists(args)
  {
  }

  // ---------------------------------------------------------------------------
  // Dispatch
  // ---------------------------------------------------------------------------

  lemma NamesDistinct()
    ensures SET_NAME != GET_NAME && SET_NAME != GETSET_NAME && SET_NAME != STRLEN_NAME
    ensures SET_NAME != EXISTS_NAME && SET_NAME != DEL_NAME
    ensures GET_NAME != GETSET_NAME && GET_NAME != STRLEN_NAME && GET_NAME != EXISTS_NAME
    ensures GET_NAME != DEL_NAME && GETSET_NAME != STRLEN_NAME && GETSET_NAME != EXISTS_NAME
    ensures GETSET_NAME != DEL_NAME && STRLEN_NAME != EXISTS_NAME && STRLEN_NAME != DEL_NAME
    ensures EXISTS_NAME != DEL_NAME
  {
    assert SET_NAME[0] != GET_NAME[0] && SET_NAME[0] != EXISTS_NAME[0] && SET_NAME[0] != DEL_NAME[0];
    assert SET_NAME[1] != STRLEN_NAME[1] && GETSET_NAME[0] != STRLEN_NAME[0];
    assert |SET_NAME| != |GETSET_NAME| && |GET_NAME| != |GETSET_NAME|;
    assert GET_NAME[0] != STRLEN_NAME[0] && GET_NAME[0] != EXISTS_NAME[0] && GET_NAME[0] != DEL_NAME[0];
    assert GETSET_NAME[0] != EXISTS_NAME[0] && GETSET_NAME[0] != DEL_NAME[0];
    assert STRLEN_NAME[0] != EXISTS_NAME[0] && STRLEN_NAME[0] != DEL_NAME[0] && EXISTS_NAME[0] != DEL_NAME[0];
  }

  /** A request that is not a present, non-empty array fails with the array error. */
  lemma InterpretNotArray(v: RespType)
    requires ToArr(v).Err?
    ensures Interpret(v) == Err(ToArr(v).error)
    ensures v == Arr([]) ==> Interpret(v) == Err(EmptyArr)
    ensures !v.Arr? ==> Interpret(v) == Err(NotArr)
  {
  }

  /** A first element that is not a string fails with the string error. */
  lemma InterpretBadName(v: RespType)
    requires v.Arr? && |v.elems| > 0 && GetString(v.elems[0]).Err?
    ensures Interpret(v) == Err(GetString(v.elems[0]).error)
  {
  }

  /** A string name that is none of the six lower-case command names is reported as
      unknown, and no other request is. */
  lemma InterpretUnknown(v: RespType, name: Bytes)
    requires v.Arr? && |v.elems| > 0 && GetString(v.elems[0]) == Ok(name)
    ensures Interpret(v) == Err(UnknownCommand(name)) <==> !IsCommandName(name)
  {
  }

  /** Each command name hands the arguments after it to that command's parser. */
  lemma CommandDispatch(name: Bytes, args: seq<RespType>)
    ensures name == SET_NAME ==>
              Command(name, args) == (if SetSpec(args).Ok? then Ok(Set(SetSpec(args).value)) else Err(SetSpec(args).error))
    ensures name == GET_NAME ==> Command(name, args) == ParseGet(args)
    ensures name == GETSET_NAME ==> Command(name, args) == ParseGetSet(args)
    ensures name == STRLEN_NAME ==> Command(name, args) == ParseStrLen(args)
    ensures name == EXISTS_NAME ==> Command(name, args) == ParseExists(args)
    ensures name == DEL_NAME ==>
              Command(name, args) == (if DelSpec(args).Ok? then Ok(Del(DelSpec(args).value)) else Err(DelSpec(args).error))
  {
    NamesDistinct();
  }

  /** The name is not case-folded: `SET` is an unknown command. */
  lemma UpperCaseUnknown(v: RespType, name: Bytes)
    requires name == Ascii("SET")
    requires v.Arr? && |v.elems| > 0 && GetString(v.elems[0]) == Ok(name)
    ensures Interpret(v) == Err(UnknownCommand(name))
  {
    assert name[0] != SET_NAME[0] && name[0] != GET_NAME[0] && name[0] != GETSET_NAME[0];
    assert name[0] != STRLEN_NAME[0] && name[0] != EXISTS_NAME[0] && name[0] != DEL_NAME[0];
  }

  // ---------------------------------------------------------------------------
  // Soundness
  // ---------------------------------------------------------------------------

  /** Where an accepted expiry comes from: `ex N` or `px N`, N an unsigned decimal
      string, scaled to milliseconds. */
  predicate ExpiryFrom(token: RespType, amount: RespType, ms: nat) {
    GetString(token).Ok? && GetString(amount).Ok? && ParseU64(GetString(amount).value).Some? &&
    var n := ParseU64(GetString(amount).value).value;
    (GetString(token).value == EX_ARG && ms == n * 1000) || (GetString(token).value == PX_ARG && ms == n)
  }

  function FlagArg(f: SetX): Bytes {
    match f
    case NX => NX_ARG
    case XX => XX_ARG
  }

  /** The arguments of a request carry the parts of cmd where its grammar puts them. */
  predicate ArgsMean(args: seq<RespType>, cmd: RedisCommand) {
    match cmd
    case Set(c) =>
      && |args| >= 2 && GetString(args[0]) == Ok(c.key) && ValueFrom(args[1]) == Ok(c.value)
      && (c.expire.Some? ==> |args| >= 4 && ExpiryFrom(args[2], args[3], c.expire.value))
      && (c.setx.Some? ==>
            var j := if c.expire.Some? then 4 else 2;
            |args| > j && GetString(args[j]) == Ok(FlagArg(c.setx.value)))
    case Get(k) => |args| >= 1 && GetString(args[0]) == Ok(k)
    case GetSet(k, x) => |args| == 2 && GetString(args[0]) == Ok(k) && ValueFrom(args[1]) == Ok(x)
    case StrLen(k) => |args| == 1 && GetString(args[0]) == Ok(k)
    case Exists(k) => |args| == 1 && GetString(args[0]) == Ok(k)
    case Del(ks) =>
      |args| > 0 && |ks| == |args| && forall i | 0 <= i < |args| :: GetString(args[i]) == Ok(ks[i])
  }

  /** SET's result carries its arguments where the grammar puts them. */
  lemma SetSound(args: seq<RespType>, c: SetCmd)
    requires SetSpec(args) == Ok(c)
    ensures ArgsMean(args, Set(c))
  {
    var narrowed := ExpirySpec(args[2..]).value;
    if c.setx.Some? {
      assert narrowed.rest[0] == args[if c.expire.Some? then 4 else 2];
    }
  }

  /** Every accepted command carries its arguments where its grammar puts them. */
  lemma CommandSound(name: Bytes, args: seq<RespType>, cmd: RedisCommand)
    requires Command(name, args) == Ok(cmd)
    ensures ArgsMean(args, cmd)
  {
    CommandDispatch(name, args);
    match cmd
    case Set(c) => SetSound(args, c);
    case Del(ks) => DelMeaning(args, ks);
    case _ =>
  }

  /** Every accepted request names its command first and carries its arguments after. */
  lemma InterpretSound(v: RespType, cmd: RedisCommand)
    requires Interpret(v) == Ok(cmd)
    ensures v.Arr? && |v.elems| > 0 && GetString(v.elems[0]) == Ok(Name(cmd))
    ensures ArgsMean(v.elems[1..], cmd)
  {
    CommandSound(Name(cmd), v.elems[1..], cmd);
  }

  // ---------------------------------------------------------------------------
  // Requests
  // ---------------------------------------------------------------------------

  function Bulk(b: Bytes): RespType {
    BulkStr(Some(b))
  }

  function ExpiryArgs(expire: Option<nat>): seq<RespType> {
    match expire
    case None => []
    case Some(ms) => [Bulk(PX_ARG), Bulk(NatText(ms))]
  }

  function FlagArgs(setx: Option<SetX>): seq<RespType> {
    match setx
    case None => []
    case Some(f) => [Bulk(FlagArg(f))]
  }

  /** The arguments a client sends for cmd, each key and token as a bulk string. */
  function Args(cmd: RedisCommand): seq<RespType> {
    match cmd
    case Set(c) => [Bulk(c.key), ValueTo(c.value)] + ExpiryArgs(c.expire) + FlagArgs(c.setx)
    case Get(k) => [Bulk(k)]
    case GetSet(k, x) => [Bulk(k), ValueTo(x)]
    case StrLen(k) => [Bulk(k)]
    case Exists(k) => [Bulk(k)]
    case Del(ks) => seq(|ks|, i requires 0 <= i < |ks| => Bulk(ks[i]))
  }

  /** The request a client sends for cmd: its name, then its arguments. */
  function Request(cmd: RedisCommand): RespType {
    Arr([Bulk(Name(cmd))] + Args(cmd))
  }

  /** The commands a request can express: keys valid as UTF-8, an expiry that fits a
      `u64` of milliseconds, and at least one key for DEL. */
  predicate Expressible(cmd: RedisCommand) {
    match cmd
    case Set(c) => ValidUtf8(c.key) && (c.expire.Some? ==> c.expire.value < U64_LIMIT)
    case Get(k) => ValidUtf8(k)
    case GetSet(k, _) => ValidUtf8(k)
    case StrLen(k) => ValidUtf8(k)
    case Exists(k) => ValidUtf8(k)
    case Del(ks) => |ks| > 0 && forall i | 0 <= i < |ks| :: ValidUtf8(ks[i])
  }

  lemma NameIsUtf8(cmd: RedisCommand)
    ensures ValidUtf8(Name(cmd)) && IsCommandName(Name(cmd))
  {
    AsciiIsUtf8(Name(cmd));
  }

  lemma TokensDistinct()
    ensures NX_ARG != EX_ARG && NX_ARG != PX_ARG && XX_ARG != EX_ARG && XX_ARG != PX_ARG
    ensures NX_ARG != XX_ARG && EX_ARG != PX_ARG
    ensures ValidUtf8(EX_ARG) && ValidUtf8(PX_ARG) && ValidUtf8(NX_ARG) && ValidUtf8(XX_ARG)
  {
    AsciiIsUtf8(EX_ARG);
    AsciiIsUtf8(PX_ARG);
    AsciiIsUtf8(NX_ARG);
    AsciiIsUtf8(XX_ARG);
  }

  /** The flag step reads back the flag argument written for it. */
  lemma FlagRoundTrip(setx: Option<SetX>)
    ensures FlagSpec(FlagArgs(setx)) == Ok(setx)
  {
    TokensDistinct();
  }

  /** The expiry step reads back the expiry arguments written for it, and leaves the flag arguments. */
  lemma ExpiryRoundTrip(expire: Option<nat>, setx: Option<SetX>)
    requires expire.Some? ==> expire.value < U64_LIMIT
    ensures ExpirySpec(ExpiryArgs(expire) + FlagArgs(setx)) == Ok(Narrowed(expire, FlagArgs(setx)))
  {
    if expire.Some? {
      ExpiryRoundTripMillis(expire.value, FlagArgs(setx));
    } else {
      assert ExpiryArgs(expire) + FlagArgs(setx) == FlagArgs(setx);
    }
  }

  lemma ExpiryRoundTripMillis(ms: u64, flags: seq<RespType>)
    ensures ExpirySpec(ExpiryArgs(Some(ms)) + flags) == Ok(Narrowed(Some(ms), flags))
  {
    var rest := ExpiryArgs(Some(ms)) + flags;
    assert rest[0] == Bulk(PX_ARG) && rest[1] == Bulk(NatText(ms)) && rest[2..] == flags;
    TokensDistinct();
    assert GetString(rest[0]) == Ok(PX_ARG);
    NatTextIsUtf8(ms);
    assert GetString(rest[1]) == Ok(NatText(ms));
    ParseU64NatText(ms);
  }

  /** SET reads back the arguments written for it. */
  lemma SetRoundTrip(c: SetCmd)
    requires Expressible(Set(c))
    ensures SetSpec(Args(Set(c))) == Ok(c)
  {
    var args := Args(Set(c));
    var rest := ExpiryArgs(c.expire) + FlagArgs(c.setx);
    assert args[0] == Bulk(c.key) && args[1] == ValueTo(c.value) && args[2..] == rest;
    ValueFromTo(c.value, args[1]);
    ExpiryRoundTrip(c.expire, c.setx);
    FlagRoundTrip(c.setx);
  }

  lemma NatTextIsUtf8(n: nat)
    ensures ValidUtf8(NatText(n))
  {
    IntTextIsLine(n);
  }

  /** Each command's parser reads back the arguments written for it. */
  lemma CommandRoundTrip(cmd: RedisCommand)
    requires Expressible(cmd)
    ensures Command(Name(cmd), Args(cmd)) == Ok(cmd)
  {
    var args := Args(cmd);
    CommandDispatch(Name(cmd), args);
    match cmd
    case Set(c) => SetRoundTrip(c);
    case GetSet(k, x) => ValueFromTo(x, args[1]);
    case Del(ks) => DelMeaning(args, ks);
    case _ =>
  }

  /** The interpreter inverts the request encoder: every expressible command is read
      back from its request. */
  lemma InterpretRequest(cmd: RedisCommand)
    requires Expressible(cmd)
    ensures Interpret(Request(cmd)) == Ok(cmd)
  {
    var arr := [Bulk(Name(cmd))] + Args(cmd);
    assert arr[0] == Bulk(Name(cmd)) && arr[1..] == Args(cmd);
    NameIsUtf8(cmd);
    CommandRoundTrip(cmd);
  }

  /** End to end: the wire encoding of a request decodes and interprets to its command. */
  lemma WireRoundTrip(cmd: RedisCommand)
    requires Expressible(cmd) && Encodable(Request(cmd))
    ensures ParseRaw(Encode(Request(cmd))) == Some(Parsed(Request(cmd), []))
    ensures Interpret(ParseRaw(Encode(Request(cmd))).value.value) == Ok(cmd)
  {
    DecodeEncode(Request(cmd));
    InterpretRequest(cmd);
  }
}
