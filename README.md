# rudis request decoding, modelled in Dafny

This project models how the rudis server turns the bytes of a client request into a
command. It covers two layers of the repository.

- **The RESP2 decoder** (`src/protocol/resp.rs`).
  - `ParseRaw` reads one value of the Redis Serialization Protocol from the front of a
    byte buffer and returns it together with the unconsumed rest. The value is a
    simple string, an error, an integer, a bulk string (possibly null) or an array
    (possibly null) of nested values.
  - The accessors `GetString`, `GetInt` and `ToArr` classify a decoded value.
- **The command interpreter** (`src/command/commands.rs`).
  - `Interpret` turns a decoded request into SET, GET, GETSET, STRLEN, EXISTS or DEL.
  - It checks each argument in its grammar's order and reports the first failure,
    using one error datatype.
  - SET's argument parsing narrows the argument slice step by step. It is the method
    `ParseSetCmd`, proved equal to the grammar function `SetSpec`.
  - DEL's loop is the method `ParseDel`, proved equal to `DelSpec`.

Each layer has an independent partner.

- **Decoder partner:** a reference encoder `Encode` for the canonical wire form.
  - Decoding the encoding of any encodable value gives the value back and leaves the
    following bytes untouched (`RoundTrip`).
  - The decoder's test vectors are proved as instances of this round trip.
- **Interpreter partner:** a request builder `Request`.
  - The interpreter reads the command back from every request built for it
    (`InterpretRequest`), also from the wire (`WireRoundTrip`).
  - Every accepted request carries its command's parts where the grammar puts them
    (`InterpretSound`).

Files:
- `wrappers.dfy`: Option and Result.
- `text.dfy`: bytes, UTF-8 validity, decimal parsing and printing.
- `errors.dfy`: the error reasons.
- `resp.dfy`: the decoder.
- `resp_properties.dfy`: decoder properties.
- `resp_encoding.dfy`: the encoder and round trip.
- `resp_examples.dfy`: the decoder test vectors.
- `commands.dfy`: the interpreter.
- `command_properties.dfy`: interpreter properties, `Request` and its round trip.
- `command_examples.dfy`: the interpreter test vectors.

## Model

| member | source | states |
|---|---|---|
| Resp.GetString | src/protocol/resp.rs:36-48 | `Str` gives its text; `BulkStr(Some b)` gives b exactly when b is valid UTF-8 and fails with the UTF-8 error otherwise; every other value (null bulk string, error, integer, array) fails with `NotStr` |
| Resp.GetInt | src/protocol/resp.rs:49-55 | succeeds exactly for an integer, with its value; otherwise `NotInt` |
| Resp.ToArr | src/protocol/resp.rs:56-66 | succeeds exactly for a present non-empty array, with its elements; `Arr([])` fails with `EmptyArr`, the null array and non-arrays with `NotArr` |
| Resp.Line | src/protocol/resp.rs:72 | the line is CR-free and the input is the line, CRLF, then the rest |
| Resp.Ps | src/protocol/resp.rs:69-76 | on success the input is the prefix byte, a CR-free valid UTF-8 line, CRLF, then the rest |
| Resp.Pi | src/protocol/resp.rs:99-104 | on success the rest is a proper suffix of the input |
| Resp.ParseStr | src/protocol/resp.rs:78-83 | success yields a `Str` |
| Resp.ParseErr | src/protocol/resp.rs:85-90 | success yields an `Error` |
| Resp.ParseInteger | src/protocol/resp.rs:92-97 | success yields an `Integer` |
| Resp.AsUsize | src/protocol/resp.rs:111 | the `as usize` cast keeps a non-negative length and maps a negative one to at least 2^63 |
| Resp.ParseBulkStr | src/protocol/resp.rs:106-116 | success yields a `BulkStr` |
| Resp.BulkBody | src/protocol/resp.rs:107-115 | success yields a `BulkStr` and leaves a suffix of the bytes after the header |
| Resp.ParseArr | src/protocol/resp.rs:118-128 | success yields an array or the null array, well-formed at every depth, and leaves a proper suffix |
| Resp.ArrBody | src/protocol/resp.rs:119-127 | success yields an array or the null array, well-formed, leaving a suffix |
| Resp.ParseElements | src/protocol/resp.rs:125 | exactly m values, all well-formed, that consume at least m bytes and leave a suffix |
| Resp.ParseRaw | src/protocol/resp.rs:130-138 | on success the rest is a proper suffix of the input, the value is well-formed, and the first byte is one of `+ - : $ *`; so empty input and any other first byte fail |
| RespProperties.LineExactly | src/protocol/resp.rs:72 | a line is read exactly when the input is a CR-free text, CRLF and a rest, and then it is that text and rest |
| RespProperties.LineNeedsCRLF | src/protocol/resp.rs:72 | no CR, or a first CR not followed by LF, gives no line |
| RespProperties.PiOf | src/protocol/resp.rs:99-104 | a number line is accepted exactly when the text parses as an i64 (the UTF-8 check never rejects a number) |
| RespProperties.Dispatch | src/protocol/resp.rs:130-138 | the first byte alone selects the production (a direct unfolding of the dispatch, stated for use by other proofs) |
| RespProperties.StrExactly | src/protocol/resp.rs:69-83 | `+` decodes to `Str(text)` with a given rest exactly when the input is `+`, text, CRLF, rest, and text is CR-free valid UTF-8 (a bare LF may occur) |
| RespProperties.ErrorExactly | src/protocol/resp.rs:69-90 | the same for `-` and `Error(text)` |
| RespProperties.IntegerLine | src/protocol/resp.rs:92-97 | `:` with a CR-free line decodes to `Integer(n)` exactly when the line parses as the i64 n, and fails otherwise |
| RespProperties.BulkHeader | src/protocol/resp.rs:106-116 | `$` with a CR-free header line continues with the bulk body of the header's i64 value, and fails when the header is not an i64 |
| RespProperties.ArrHeader | src/protocol/resp.rs:118-128 | `*` with a CR-free header line continues with the array body of the header's i64 value, and fails when the header is not an i64 |
| RespProperties.BulkNull | src/protocol/resp.rs:107-110 | a bulk length of -1 gives the null bulk string and reads nothing more |
| RespProperties.BulkPayload | src/protocol/resp.rs:111-115 | for a length m >= 0 the payload is exactly the next m bytes, whatever they hold, and decoding succeeds exactly when CRLF follows them |
| RespProperties.BulkNegativeFails | src/protocol/resp.rs:111-115 | any other negative length fails |
| RespProperties.ArrNull | src/protocol/resp.rs:119-122 | an array count of -1 gives the null array |
| RespProperties.ArrElements | src/protocol/resp.rs:123-127 | a count m >= 0 gives the array of exactly the m values read after the header, in order, or fails when they are not there |
| RespProperties.ArrNegativeFails | src/protocol/resp.rs:123-127 | any other negative count fails |
| RespProperties.ElementsOne | src/protocol/resp.rs:125 | reading one element is reading one value |
| RespProperties.ElementsCons | src/protocol/resp.rs:125 | a value followed by m values is m + 1 values, the first one in front (a direct unfolding of the element loop) |
| RespProperties.ElementsUncons | src/protocol/resp.rs:125 | the first of n + 1 values is one value and the other n follow it |
| RespProperties.ExtendRaw | src/protocol/resp.rs:130-138 | bytes appended after a decoded value end up in the rest, and the value is unchanged |
| RespProperties.ExtendElements | src/protocol/resp.rs:125 | the same for m array elements |
| RespProperties.TrailingBytesUntouched | src/protocol/resp.rs:167-172 | if s decodes to (v, []) then s followed by t decodes to (v, t) |
| RespEncoding.EncodableIsWellFormed | src/protocol/resp.rs:14-21 | every encodable value is well-formed |
| RespEncoding.RoundTrip | src/protocol/resp.rs:106-138 | decoding the encoding of an encodable value followed by any bytes t gives the value back with rest t |
| RespEncoding.RoundTripAll | src/protocol/resp.rs:125 | decoding the encodings of several values gives exactly those values, in order |
| RespEncoding.DecodeEncode | src/protocol/resp.rs:160-162 | an encoding that ends the buffer decodes to its value with an empty rest |
| RespExamples.SimpleString | src/protocol/resp.rs:146 | `+foo\r\n` is `Str("foo")` |
| RespExamples.ErrorString | src/protocol/resp.rs:147 | `-wrong\r\n` is `Error("wrong")` |
| RespExamples.NegativeInteger | src/protocol/resp.rs:148 | `:-10\r\n` is `Integer(-10)` |
| RespExamples.PositiveInteger | src/protocol/resp.rs:149 | `:65535\r\n` is `Integer(65535)` |
| RespExamples.TenByteBulkString | src/protocol/resp.rs:150 | `$10\r\nabcdefghij\r\n` is the bulk string of those ten bytes |
| RespExamples.NullBulkString | src/protocol/resp.rs:151 | `$-1\r\n` is the null bulk string |
| RespExamples.EmptyBulkString | src/protocol/resp.rs:106-116 | `$0\r\n\r\n` is the empty bulk string, which is not the null one |
| RespExamples.TwoElementArray | src/protocol/resp.rs:152 | `*2\r\n+foo\r\n-wrong\r\n` is the array of `Str("foo")` then `Error("wrong")` |
| RespExamples.NestedArray | src/protocol/resp.rs:153-157 | the nested request decodes to an array holding an array of 1, -2, 3, then the bulk string `twe`, then `Error("qqq")` |
| RespExamples.NullArray | src/protocol/resp.rs:158 | `*-1\r\n` is the null array |
| RespExamples.ExtraBytes | src/protocol/resp.rs:167-172 | `+foo\r\ntt` is `Str("foo")` with `tt` left over |
| Commands.ValueFrom | src/command/commands.rs:44-59 | succeeds exactly for integers, present bulk strings (no UTF-8 check) and simple strings, and then maps back to its input; the null bulk string fails with `NullStr`, errors and arrays with `WrongValueType` |
| Commands.ValueFromTo | src/command/commands.rs:44-59 | conversion succeeds with x exactly on the protocol value x is read from |
| Commands.ExpirySpec | src/command/commands.rs:70-86 | with fewer than two arguments nothing is read; when no expiry is read nothing is consumed; a read expiry consumes exactly two arguments |
| Commands.FlagSpec | src/command/commands.rs:87-99 | no argument gives no flag; the result is NX exactly when the first argument is the string `nx`, XX exactly when it is `xx`, and an error exactly when it is not a string (with that error) |
| Commands.SetSpec | src/command/commands.rs:62-107 | an accepted SET has the first argument's string as key and the second argument's value |
| Commands.ParseSetCmd | src/command/commands.rs:62-107 | the slice-narrowing parser computes exactly `SetSpec` on every input, errors included |
| Commands.ParseGet | src/command/commands.rs:115-123 | no argument fails with `LackArgs(1, 0)`; otherwise the result is GET of the first argument's string, or its error, whatever follows |
| Commands.ParseGetSet | src/command/commands.rs:131-141 | any count other than 2 fails with `LackArgs(2, count)`; otherwise it gives GETSET of the key's string and the value exactly when both convert; a bad key's error is reported first, and with a good key a bad value's error is reported |
| Commands.SingleKey | src/command/commands.rs:146-165 | any count other than 1 fails with `LackArgs(1, count)`; otherwise the key's string |
| Commands.ParseStrLen | src/command/commands.rs:146-153 | STRLEN of the single key, or the `SingleKey` error |
| Commands.ParseExists | src/command/commands.rs:158-165 | EXISTS of the single key, or the `SingleKey` error |
| Commands.KeysSpec | src/command/commands.rs:176-178 | the keys, when read, are one per argument, and a failure is a string error |
| Commands.DelSpec | src/command/commands.rs:170-181 | fails with `LackArgs(1, 0)` exactly when there are no arguments; otherwise one key per argument as `KeysSpec` reads them (their meaning is stated in `DelMeaning`) |
| Commands.ParseDel | src/command/commands.rs:170-181 | the push loop computes exactly `DelSpec` on every input, errors included |
| Commands.KeysMeaning | src/command/commands.rs:176-179 | the keys are ks exactly when every argument is a string and ks are those strings in argument order (duplicates kept, same length) |
| Commands.KeysFirstError | src/command/commands.rs:176-178 | the first non-string argument decides the error |
| Commands.DelMeaning | src/command/commands.rs:172-180 | DEL fails with `LackArgs(1, 0)` exactly when it has no arguments, and gives ks exactly when there are arguments, all strings, and ks are those strings in order |
| Commands.Interpret | src/command/commands.rs:193-209 | an accepted request is a non-empty array whose first element is the string naming the command |
| Commands.Command | src/command/commands.rs:198-208 | an accepted command has the given name; the result is `UnknownCommand(name)` exactly when the name is none of the six lower-case names |
| CommandProperties.SetArity | src/command/commands.rs:65-66 | SET fails with `LackArgs(2, n)` exactly when it has n < 2 arguments |
| CommandProperties.SetKeyFirst | src/command/commands.rs:67-68 | a bad key is reported even if the value is bad too |
| CommandProperties.SetValueSecond | src/command/commands.rs:68 | with a good key, a bad value is the error |
| CommandProperties.SetKeyValueOnly | src/command/commands.rs:62-107 | a key and a value alone give no expiry and no flag |
| CommandProperties.SetThreeArgs | src/command/commands.rs:70-99 | with one argument after the value no expiry is read, even from `ex`, and that argument is the flag position; a non-string there fails SET with its string error |
| CommandProperties.SetExpirySeconds | src/command/commands.rs:72-76 | `ex N` with N an unsigned decimal gives N * 1000 ms, and the flag is read after N; a non-string flag argument fails SET with its string error |
| CommandProperties.SetExpiryMillis | src/command/commands.rs:77-81 | `px N` gives N ms, and the flag is read after N; a non-string flag argument fails SET with its string error |
| CommandProperties.SetBadAmount | src/command/commands.rs:72-81 | after `ex`/`px`, a non-string amount fails with its string error, an unparsable one with `ParseIntErr` |
| CommandProperties.SetExpiryNotString | src/command/commands.rs:71 | with two or more arguments after the value, a non-string first one fails SET |
| CommandProperties.SetOtherToken | src/command/commands.rs:82-99 | any other string there sets no expiry, is not consumed, and is read again as the flag |
| CommandProperties.SetFlagInExpiryPosition | src/command/commands.rs:82-91 | `set k v nx ...` gives NX and no expiry |
| CommandProperties.FlagIgnoresTail | src/command/commands.rs:87-99 | the flag step looks at one argument at most |
| CommandProperties.SetIgnoresTail | src/command/commands.rs:62-107 | SET ignores every argument after the fifth |
| CommandProperties.GetIgnoresExtra | src/command/commands.rs:117-122 | GET looks only at its first argument |
| CommandProperties.ExactArity | src/command/commands.rs:131-165 | GETSET needs exactly 2 arguments and STRLEN/EXISTS exactly 1; too many is reported as `LackArgs(required, actual)` |
| CommandProperties.InterpretNotArray | src/command/commands.rs:196 | a request that is not a present non-empty array fails with `EmptyArr` or `NotArr` |
| CommandProperties.InterpretBadName | src/command/commands.rs:197 | a first element that is not a string fails with its string error |
| CommandProperties.InterpretUnknown | src/command/commands.rs:198-207 | a string name is reported as unknown exactly when it is none of the six names |
| CommandProperties.CommandDispatch | src/command/commands.rs:199-204 | each name hands the arguments after it to its command's parser (a direct unfolding of the match) |
| CommandProperties.UpperCaseUnknown | src/command/commands.rs:197-207 | the name is not case-folded: `SET` is `UnknownCommand("SET")` |
| CommandProperties.SetSound | src/command/commands.rs:62-107 | an accepted SET's key, value, expiry (from `ex N` or `px N`) and flag come from the argument positions its grammar reads |
| CommandProperties.InterpretSound | src/command/commands.rs:193-209 | every accepted request names its command first and carries the command's parts at their grammar positions |
| CommandProperties.SetRoundTrip | src/command/commands.rs:62-107 | SET reads back the arguments built for it |
| CommandProperties.CommandRoundTrip | src/command/commands.rs:198-208 | each command's parser reads back the arguments built for it |
| CommandProperties.InterpretRequest | src/command/commands.rs:193-209 | the interpreter reads every expressible command back from its request |
| CommandProperties.WireRoundTrip | src/command/commands.rs:239-242 | the wire encoding of a request decodes to it with nothing left, and interprets to its command |
| CommandExamples.GetFoo | src/command/commands.rs:221 | `*2\r\n+get\r\n+foo\r\n` decodes and is GET foo |
| CommandExamples.SetFooNumber | src/command/commands.rs:222-227 | `*3\r\n+set\r\n+foo\r\n:456\r\n` is SET foo to the number 456, with no expiry or flag |
| CommandExamples.SetBulk | src/command/commands.rs:228-233 | the bulk-string SET of mykey to `Hello` gives a bulk value, not a string one |
| CommandExamples.GetSetBulk | src/command/commands.rs:234-237 | the bulk-string GETSET of thiskey to `12345` gives the bulk bytes, not a number |

## Left out

- The parser-combinator library: it is replaced by the grammar it expresses. Its Error, Failure and Incomplete outcomes are one failure, `None`.
- Allocation failure or panic inside `many_m_n` for huge array counts counts as decode failure. The model fails there anyway, because any count beyond the buffer length cannot be met.
- Error boxing and the display strings of the error enums: only the error reason is kept, as one datatype. The library errors of UTF-8 validation and integer parsing are `Utf8Err` and `ParseIntErr`.
- Lifetimes and borrowing: keys and texts are copied byte sequences. Text is kept as its UTF-8 bytes rather than as `String`/`&str`.
- `std::str::from_utf8` and `str::parse::<i64>`/`<u64>` are library code, not part of this model. They are stated as `ValidUtf8` (the well-formed sequences of table 3-7 of the Unicode Standard) and `ParseI64` (optional `+` or `-`) and `ParseU64` (optional `+` only), each followed by one or more ASCII digits and a range check.
- `std::time::Duration` is a whole number of milliseconds.
- The array constructor `Arr(Option<Vec<_>>)` becomes two constructors, `Arr(elems)` and `NullArr`, so that recursion over array elements is well-founded.
- Stack exhaustion on deep nesting: the decoder recurses once per array level with no depth limit, so deeply nested input (such as `*1\r\n` repeated 10^5 times) exhausts the thread stack and aborts the process. The model has no stack, so `ParseRaw`, `RoundTrip` and `ExtendRaw` hold at every depth.
- `len as usize` assumes a 64-bit target, with a negative i64 becoming `len + 2^64`.
- RespProperties.BulkNegativeFails: stated only for buffers shorter than 2^63 bytes, which Rust slices never exceed.
- RespProperties.ArrNegativeFails: stated only for buffers shorter than 2^63 bytes, which Rust slices never exceed.
- The `#[cfg(test)]` modules are not modelled as code. Their cases appear as the example lemmas.
- There is no lemma about the order in which two concatenated element runs are read. It follows from `ElementsCons`/`ElementsUncons` applied repeatedly.
