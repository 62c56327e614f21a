/** Validation of the one-byte fields, and the outcome of decoding a body. */
module Fields {
  import opened Bytes

  /** UnmarshalBinary's result: the value, or which of its three checks failed. */
  datatype Decoded<+T> = Ok(value: T) | TooShort | BadSecret | Invalid

  const AUTHENTICATE: byte := 1
  const AUTHORIZE: byte := 2
  const ACCOUNTING: byte := 3

  const ACTION_LOGIN: byte := 1
  const TYPE_ASCII: byte := 1
  const TYPE_PAP: byte := 2
  const TYPE_CHAP: byte := 3
  const TYPE_MSCHAP: byte := 5
  const TYPE_MSCHAPV2: byte := 6
  const SERVICE_ENABLE: byte := 2

  const AUTHEN_PASS: byte := 1
  const AUTHEN_FAIL: byte := 2
  const AUTHEN_GET_USER: byte := 4
  const AUTHEN_GET_PASS: byte := 5
  const AUTHEN_RESTART: byte := 6
  const AUTHEN_ERROR: byte := 7

  const AUTHOR_PASS_ADD: byte := 1
  const AUTHOR_PASS_REPL: byte := 2
  const AUTHOR_FAIL: byte := 0x10
  const AUTHOR_ERROR: byte := 0x11

  const ACCT_ERROR: byte := 2

  predicate ValidAction(b: byte) { b in {1, 2, 4} }
  predicate ValidPrivLvl(b: byte) { b <= 15 }
  predicate ValidAuthenType(b: byte) { b <= 6 }
  predicate ValidService(b: byte) { b <= 9 }
  predicate ValidAuthenStatus(b: byte) { 1 <= b <= 7 }
  predicate ValidMethod(b: byte) { b <= 6 || b == 8 || b == 0x10 }
  predicate ValidAuthorStatus(b: byte) { b in {1, 2, 0x10, 0x11} }
  predicate ValidAcctStatus(b: byte) { b in {1, 2} }

  /** The stop and watchdog flags exclude each other. */
  predicate ValidAcctFlags(b: byte) { !(HasBit(b, 4) && HasBit(b, 8)) }

  predicate ValidArg(arg: Text) { AllAscii(arg) && 2 <= |arg| <= 255 }
  predicate ValidArgs(args: seq<Text>) { forall i :: 0 <= i < |args| ==> ValidArg(args[i]) }
}
