/** The command interpreter of src/command/commands.rs: it turns one decoded request,
    an array whose first element names the command, into a typed command, checking
    each argument in order and reporting the first failure.

    SET's argument grammar narrows the argument slice step by step and DEL collects
    its keys in a loop; both are written here as methods, each proved equal to the
    function that states its grammar, which the dispatcher uses. Keys and string
    values are kept as their UTF-8 bytes; a `Duration` is a whole number of
    milliseconds. */
module Commands {
  import opened Wrappers
  import opened Text
  import opened Errors
  import opened Resp

  // ---------------------------------------------------------------------------
  // Values
  // ---------------------------------------------------------------------------

  /** The value of a SET or GETSET. */
  datatype Value = Num(n: i64) | BSStr(bytes: Bytes) | Str(text: Bytes)

  /** The protocol value a command value is read from. */
  function ValueTo(x: Value): RespType {
    match x
    case Num(n) => Integer(n)
    case BSStr(b) => BulkStr(Some(b))
    case Str(t) => RespType.Str(t)
  }

  /** `Value::try_from`: integers, present bulk strings (whatever their bytes) and
      simple strings; the null bulk string and every other kind are rejected. */
  function ValueFrom(v: RespType): (r: Outcome<Value>)
    ensures r.Ok? <==> v.Integer? || (v.BulkStr? && v.bulk.Some?) || v.Str?
    ensures r.Ok? ==> ValueTo(r.value) == v
    ensures v == BulkStr(None) ==> r == Err(NullStr)
    ensures v.Error? || v.Arr? || v.NullArr? ==> r == Err(WrongValueType)
  {
    match v
    case Integer(n) => Ok(Num(n))
    case BulkStr(b) => if b.Some? then Ok(BSStr(b.value)) else Err(NullStr)
    case Str(t) => Ok(Value.Str(t))
    case _ => Err(WrongValueType)
  }

  /** A value is read back from the protocol value it comes from, so conversion
      succeeds exactly on the protocol values of command values. */
  lemma ValueFromTo(x: Value, v: RespType)
    ensures ValueFrom(ValueTo(x)) == Ok(x)
    ensures ValueFrom(v) == Ok(x) <==> v == ValueTo(x)
  {
  }

  // ---------------------------------------------------------------------------
  // Commands
  // ---------------------------------------------------------------------------

  datatype SetX = NX | XX

  /** A SET request; `expire` is in milliseconds. */
  datatype SetCmd = SetCmd(key: Bytes, value: Value, expire: Option<nat>, setx: Option<SetX>)

  datatype RedisCommand =
    | Set(cmd: SetCmd)
    | Get(key: Bytes)
    | GetSet(key: Bytes, val: Value)
    | StrLen(key: Bytes)
    | Exists(key: Bytes)
    | Del(keys: seq<Bytes>)

  // The command names and SET's option tokens, as the bytes of their lower-case ASCII text.
  const SET_NAME: Bytes := [115, 101, 116]                 // "set"
  const GET_NAME: Bytes := [103, 101, 116]                 // "get"
  const GETSET_NAME: Bytes := [103, 101, 116, 115, 101, 116] // "getset"
  const STRLEN_NAME: Bytes := [115, 116, 114, 108, 101, 110] // "strlen"
  const EXISTS_NAME: Bytes := [101, 120, 105, 115, 116, 115] // "exists"
  const DEL_NAME: Bytes := [100, 101, 108]                 // "del"

  const EX_ARG: Bytes := [101, 120]   // "ex"
  const PX_ARG: Bytes := [112, 120]   // "px"
  const NX_ARG: Bytes := [110, 120]   // "nx"
  const XX_ARG: Bytes := [120, 120]   // "xx"

  const MILLIS_PER_SEC: nat := 1000

  // ---------------------------------------------------------------------------
  // SET
  // ---------------------------------------------------------------------------

  /** The outcome of SET's expiry step: the expiry read and the arguments left. */
  datatype Narrowed = Narrowed(expire: Option<nat>, rest: seq<RespType>)

  /** SET's expiry step, on the arguments after key and value. It looks only when at
      least two remain: `ex N` is N seconds and `px N` is N milliseconds, N an unsigned
      decimal string, and both consume two arguments; any other string consumes
      nothing; a first argument that is not a string fails. */
  function ExpirySpec(rest: seq<RespType>): (r: Outcome<Narrowed>)
    ensures |rest| < 2 ==> r == Ok(Narrowed(None, rest))
    ensures r.Ok? && r.value.expire.None? ==> r.value.rest == rest
    ensures r.Ok? && r.value.expire.Some? ==> |rest| >= 2 && r.value.rest == rest[2..]
  {
    if |rest| < 2 then Ok(Narrowed(None, rest))
    else
      var token :- GetString(rest[0]);
      if token == EX_ARG || token == PX_ARG then
        var amount :- GetString(rest[1]);
        match ParseU64(amount)
        case None => Err(ParseIntErr)
        case Some(n) =>
          var ms := if token == EX_ARG then n * MILLIS_PER_SEC else n;
          Ok(Narrowed(Some(ms), rest[2..]))
      else Ok(Narrowed(None, rest))
  }

  /** SET's existence-flag step, on what the expiry step left: `nx` or `xx` as the
      first argument sets the flag, any other string leaves it unset, a non-string
      fails, and what follows is not looked at. */
  function FlagSpec(rest: seq<RespType>): (r: Outcome<Option<SetX>>)
    ensures |rest| == 0 ==> r == Ok(None)
    ensures r == Ok(Some(NX)) <==> |rest| > 0 && GetString(rest[0]) == Ok(NX_ARG)
    ensures r == Ok(Some(XX)) <==> |rest| > 0 && GetString(rest[0]) == Ok(XX_ARG)
    ensures r.Err? <==> |rest| > 0 && GetString(rest[0]).Err?
    ensures r.Err? ==> r.error == GetString(rest[0]).error
  {
    if |rest| == 0 then Ok(None)
    else
      var token :- GetString(rest[0]);
      if token == NX_ARG then Ok(Some(NX))
      else if token == XX_ARG then Ok(Some(XX))
      else Ok(None)
  }

  /** `SetCmd::try_from`: at least two arguments, the key (read first), the value,
      then the expiry and flag steps. */
  function SetSpec(args: seq<RespType>): (r: Outcome<SetCmd>)
    ensures r.Ok? ==> |args| >= 2 && GetString(args[0]) == Ok(r.value.key)
    ensures r.Ok? ==> ValueFrom(args[1]) == Ok(r.value.value)
  {
    if |args| < 2 then Err(LackArgs(2, |args|))
    else
      var key :- GetString(args[0]);
      var value :- ValueFrom(args[1]);
      var narrowed :- ExpirySpec(args[2..]);
      var setx :- FlagSpec(narrowed.rest);
      Ok(SetCmd(key, value, narrowed.expire, setx))
  }

  /** `SetCmd::try_from` as the source writes it, narrowing the argument slice. */
  method ParseSetCmd(args: seq<RespType>) returns (r: Outcome<SetCmd>)
    ensures r == SetSpec(args)
  {
    var arr := args;
    var n := |arr|;
    if n < 2 {
      return Err(LackArgs(2, n));
    }
    var key :- GetString(arr[0]);
    var value :- ValueFrom(arr[1]);
    arr := arr[2..];
    var expire: Option<nat> := None;
    if |arr| >= 2 {
      var token :- GetString(arr[0]);
      if token == EX_ARG {
        var amount :- GetString(arr[1]);
        var secs := ParseU64(amount);
        if secs.None? {
          return Err(ParseIntErr);
        }
        expire := Some(secs.value * MILLIS_PER_SEC);
        arr := arr[2..];
      } else if token == PX_ARG {
        var amount :- GetString(arr[1]);
        var millis := ParseU64(amount);
        if millis.None? {
          return Err(ParseIntErr);
        }
        expire := Some(millis.value);
        arr := arr[2..];
      }
    }
    assert ExpirySpec(args[2..]) == Ok(Narrowed(expire, arr));
    var setx: Option<SetX> := None;
    if |arr| >= 1 {
      var token :- GetString(arr[0]);
      if token == NX_ARG {
        setx := Some(NX);
      } else if token == XX_ARG {
        setx := Some(XX);
      }
    }
    return Ok(SetCmd(key, value, expire, setx));
  }

  // ---------------------------------------------------------------------------
  // GET, GETSET, STRLEN, EXISTS
  // ---------------------------------------------------------------------------

  /** `Get::try_from`: at least one argument, the key; the others are ignored. */
  function ParseGet(args: seq<RespType>): (r: Outcome<RedisCommand>)
    ensures r == Err(LackArgs(1, 0)) <==> |args| == 0
    ensures r.Ok? <==> |args| > 0 && GetString(args[0]).Ok?
    ensures r.Ok? ==> r.value == Get(GetString(args[0]).value)
    ensures |args| > 0 && GetString(args[0]).Err? ==> r == Err(GetString(args[0]).error)
  {
    if |args| == 0 then Err(LackArgs(1, 0))
    else
      var key :- GetString(args[0]);
      Ok(Get(key))
  }

  /** `GetSet::try_from`: exactly two arguments, the key (read first) and the value. */
  function ParseGetSet(args: seq<RespType>): (r: Outcome<RedisCommand>)
    ensures |args| != 2 ==> r == Err(LackArgs(2, |args|))
    ensures r.Ok? <==> |args| == 2 && GetString(args[0]).Ok? && ValueFrom(args[1]).Ok?
    ensures r.Ok? ==> r.value == GetSet(GetString(args[0]).value, ValueFrom(args[1]).value)
    ensures |args| == 2 && GetString(args[0]).Err? ==> r == Err(GetString(args[0]).error)
    ensures |args| == 2 && GetString(args[0]).Ok? && ValueFrom(args[1]).Err? ==> r == Err(ValueFrom(args[1]).error)
  {
    if |args| != 2 then Err(LackArgs(2, |args|))
    else
      var key :- GetString(args[0]);
      var val :- ValueFrom(args[1]);
      Ok(GetSet(key, val))
  }

  /** The grammar STRLEN and EXISTS share: exactly one argument, the key. */
  function SingleKey(args: seq<RespType>): (r: Outcome<Bytes>)
    ensures |args| != 1 ==> r == Err(LackArgs(1, |args|))
    ensures |args| == 1 ==> r == GetString(args[0])
  {
    if |args| != 1 then Err(LackArgs(1, |args|)) else GetString(args[0])
  }

  /** `StrLen::try_from`. */
  function ParseStrLen(args: seq<RespType>): (r: Outcome<RedisCommand>)
    ensures r.Ok? <==> SingleKey(args).Ok?
    ensures r.Ok? ==> r.value == StrLen(SingleKey(args).value)
    ensures r.Err? ==> r.error == SingleKey(args).error
  {
    var key :- SingleKey(args);
    Ok(StrLen(key))
  }

  /** `Exists::try_from`. */
  function ParseExists(args: seq<RespType>): (r: Outcome<RedisCommand>)
    ensures r.Ok? <==> SingleKey(args).Ok?
    ensures r.Ok? ==> r.value == Exists(SingleKey(args).value)
    ensures r.Err? ==> r.error == SingleKey(args).error
  {
    var key :- SingleKey(args);
    Ok(Exists(key))
  }

  // ---------------------------------------------------------------------------
  // DEL
  // ---------------------------------------------------------------------------

  /** The keys of args, in order; the first argument that is not a string decides
      the error. */
  function KeysSpec(args: seq<RespType>): (r: Outcome<seq<Bytes>>)
    ensures r.Ok? ==> |r.value| == |args|
    ensures r.Err? ==> r.error == NotStr || r.error == Utf8Err
    decreases |args|
  {
    if |args| == 0 then Ok([])
    else
      var init :- KeysSpec(args[..|args| - 1]);
      var key :- GetString(args[|args| - 1]);
      Ok(init + [key])
  }

  /** `Del::try_from`: at least one argument, every one of them a key. */
  function DelSpec(args: seq<RespType>): (r: Outcome<seq<Bytes>>)
    ensures r == Err(LackArgs(1, 0)) <==> |args| == 0
    ensures r.Ok? ==> |r.value| == |args| > 0
  {
    if |args| == 0 then Err(LackArgs(1, 0)) else KeysSpec(args)
  }

  /** `Del::try_from` as the source writes it, pushing one key per argument. */
  method ParseDel(args: seq<RespType>) returns (r: Outcome<seq<Bytes>>)
    ensures r == DelSpec(args)
  {
    var n := |args|;
    if n == 0 {
      return Err(LackArgs(1, 0));
    }
    var keys: seq<Bytes> := [];
    var i := 0;
    while i < n
      invariant 0 <= i <= n
      invariant KeysSpec(args[..i]) == Ok(keys)
    {
      assert args[..i + 1][..i] == args[..i];
      var key := GetString(args[i]);
      if key.Err? {
        KeysFail(args, i + 1);
        return Err(key.error);
      }
      keys := keys + [key.value];
      i := i + 1;
    }
    assert args[..n] == args;
    return Ok(keys);
  }

  /** A failing prefix makes the keys of the whole sequence fail the same way. */
  lemma {:induction false} KeysFail(args: seq<RespType>, i: nat)
    requires i <= |args| && KeysSpec(args[..i]).Err?
    ensures KeysSpec(args) == KeysSpec(args[..i])
    decreases |args| - i
  {
    if i < |args| {
      assert args[..i + 1][..i] == args[..i];
      KeysFail(args, i + 1);
    } else {
      assert args[..i] == args;
    }
  }

  /** The keys succeed exactly when every argument is a string, and then they are
      those strings, in argument order (duplicates kept). */
  lemma {:induction false} KeysMeaning(args: seq<RespType>, keys: seq<Bytes>)
    ensures KeysSpec(args) == Ok(keys) <==>
              |keys| == |args| && forall i | 0 <= i < |args| :: GetString(args[i]) == Ok(keys[i])
    decreases |args|
  {
    if |args| > 0 {
      var n := |args| - 1;
      var init := args[..n];
      assert forall i | 0 <= i < n :: init[i] == args[i];
      if |keys| == |args| {
        KeysMeaning(init, keys[..n]);
        assert keys == keys[..n] + [keys[n]];
      } else if KeysSpec(args).Ok? {
        assert |KeysSpec(args).value| == |args|;
      }
    }
  }

  /** When some argument is not a string, the first such argument decides the error. */
  lemma {:induction false} KeysFirstError(args: seq<RespType>, j: nat)
    requires j < |args| && GetString(args[j]).Err?
    requires forall i | 0 <= i < j :: GetString(args[i]).Ok?
    ensures KeysSpec(args) == Err(GetString(args[j]).error)
    decreases |args|
  {
    var n := |args| - 1;
    var init := args[..n];
    assert forall i | 0 <= i < n :: init[i] == args[i];
    if j < n {
      KeysFirstError(init, j);
    } else {
      var keys := seq(n, i requires 0 <= i < n => GetString(args[i]).value);
      KeysMeaning(init, keys);
    }
  }

  /** DEL's two outcomes: no arguments fails with LackArgs(1, 0), one or more give
      the keys in order exactly when all are strings, and otherwise the first
      non-string argument decides the error. */
  lemma DelMeaning(args: seq<RespType>, keys: seq<Bytes>)
    ensures DelSpec(args) == Err(LackArgs(1, 0)) <==> |args| == 0
    ensures DelSpec(args) == Ok(keys) <==>
              |args| > 0 && |keys| == |args| && forall i | 0 <= i < |args| :: GetString(args[i]) == Ok(keys[i])
  {
    KeysMeaning(args, keys);
  }

  // ---------------------------------------------------------------------------
  // Dispatch
  // ---------------------------------------------------------------------------

  function Name(cmd: RedisCommand): Bytes {
    match cmd
    case Set(_) => SET_NAME
    case Get(_) => GET_NAME
    case GetSet(_, _) => GETSET_NAME
    case StrLen(_) => STRLEN_NAME
    case Exists(_) => EXISTS_NAME
    case Del(_) => DEL_NAME
  }

  predicate IsCommandName(name: Bytes) {
    name == SET_NAME || name == GET_NAME || name == GETSET_NAME ||
    name == STRLEN_NAME || name == EXISTS_NAME || name == DEL_NAME
  }

  /** `RedisCommands::try_from`: a present, non-empty array whose first element is a
      string naming the command; the rest of the array are its arguments. */
  function Interpret(v: RespType): (r: Outcome<RedisCommand>)
    ensures r.Ok? ==> v.Arr? && |v.elems| > 0 && GetString(v.elems[0]) == Ok(Name(r.value))
  {
    var arr :- ToArr(v);
    var name :- GetString(arr[0]);
    Command(name, arr[1..])
  }

  /** The match on the command name, exact and without case folding: each of the six
      names hands the arguments to its command's parser, and any other name is unknown. */
  function Command(name: Bytes, args: seq<RespType>): (r: Outcome<RedisCommand>)
    ensures r.Ok? ==> Name(r.value) == name
    ensures r == Err(UnknownCommand(name)) <==> !IsCommandName(name)
  {
    if name == SET_NAME then
      var cmd :- SetSpec(args);
      Ok(Set(cmd))
    else if name == GET_NAME then ParseGet(args)
    else if name == GETSET_NAME then ParseGetSet(args)
    else if name == STRLEN_NAME then ParseStrLen(args)
    else if name == EXISTS_NAME then ParseExists(args)
    else if name == DEL_NAME then
      var keys :- DelSpec(args);
      Ok(Del(keys))
    else Err(UnknownCommand(name))
  }
}
