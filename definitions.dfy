/**
 * Shared definitions of include/csv/definitions.h: the byte type the model works on,
 * the "undefined character" sentinel and the flag record every operation returns.
 */
module Definitions {

  /** Characters are modelled as unsigned bytes (csvchar_type is unsigned char). */
  newtype Byte = b: int | 0 <= b < 256

  /** CSV_UNDEFINED_CHAR: UCHAR_MAX, marks a character attribute that is not configured. */
  const UndefinedChar: Byte := 255

  const Newline: Byte := 10         // '\n'
  const CarriageReturn: Byte := 13  // '\r'
  const DoubleQuote: Byte := 34     // '"'
  const Comma: Byte := 44           // ','

  /** csvreturn: independent one-bit flags, not mutually exclusive. */
  datatype CsvReturn = CsvReturn(
    succeeded: bool,
    truncated: bool,
    dialectNull: bool,
    delimiterError: bool,
    quoteescapeError: bool,
    lineterminatorError: bool)

  /** csvreturn_init: a result with every flag cleared. */
  function ReturnInit(): (rc: CsvReturn)
    ensures !rc.succeeded && !rc.truncated && !rc.dialectNull
    ensures !rc.delimiterError && !rc.quoteescapeError && !rc.lineterminatorError
  {
    CsvReturn(false, false, false, false, false, false)
  }

  /**
   * The call sites write csvreturn_init(true) / csvreturn_init(false): a zero result
   * whose success flag is the argument.
   */
  function ReturnOf(ok: bool): (rc: CsvReturn)
    ensures rc.succeeded == ok
    ensures rc.(succeeded := false) == ReturnInit()
  {
    ReturnInit().(succeeded := ok)
  }

  /** csv_success: the operation succeeded exactly when its success flag is set. */
  function Success(rc: CsvReturn): (ok: bool)
    ensures ok <==> rc.succeeded
  {
    rc.succeeded
  }

  /** csv_failure: the negation of csv_success. */
  function Failure(rc: CsvReturn): (failed: bool)
    ensures failed <==> !Success(rc)
  {
    !rc.succeeded
  }

  /** Exactly one of the flags that csvdialect_validate may set is set. */
  predicate ExactlyOneValidationFlag(rc: CsvReturn)
  {
    && !rc.truncated && !rc.lineterminatorError
    && (if rc.succeeded then 1 else 0) + (if rc.dialectNull then 1 else 0)
       + (if rc.delimiterError then 1 else 0) + (if rc.quoteescapeError then 1 else 0) == 1
  }

  /** Whatever flags are set, success and failure disagree. */
  lemma SuccessFailureExclusive(rc: CsvReturn)
    ensures Success(rc) != Failure(rc)
    ensures Success(ReturnInit()) == false && Failure(ReturnInit())
  {
  }
}
