/** The reasons a value access or a command interpretation fails. The source boxes
    its own error enums (ConvertErr in src/protocol/resp.rs, CommandErr in
    src/command/commands.rs) together with the library errors of UTF-8 validation and
    integer parsing into one error value; here they form one datatype. */
module Errors {
  import opened Wrappers
  import opened Text

  datatype ErrorKind =
    | NotStr                      // value is not a (valid) string
    | NotInt                      // value is not an integer
    | EmptyArr                    // present but empty array
    | NotArr                      // not an array, or the null array
    | Utf8Err                     // bulk string bytes are not valid UTF-8
    | ParseIntErr                 // expiry amount is not an unsigned decimal
    | LackArgs(required: nat, provided: nat)
    | NullStr                     // null bulk string in a value position
    | WrongValueType              // error string or array in a value position
    | UnknownCommand(name: Bytes)

  type Outcome<T> = Result<T, ErrorKind>
}
