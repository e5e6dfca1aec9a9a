/**
 * The dialect configuration object of src/csv_dialect.c. A csvdialect is a pointer to a
 * mutable struct; a NULL handle is a `Dialect?` that is null. Setters change the struct in
 * place and report through a CsvReturn; getters fall back to fixed values on NULL.
 */
module CsvDialect {
  import opened Definitions

  datatype QuoteStyle = Minimal | None | All

  /** CSV_LINETERMINATOR_TYPE: stored and handed back, never interpreted by this core. */
  datatype LineTerminator = SystemDefault | Custom(code: nat)

  /** The values a dialect holds, or what the getters report for a NULL dialect. */
  datatype Settings = Settings(
    delimiter: Byte,
    quotechar: Byte,
    escapechar: Byte,
    doublequote: bool,
    quotestyle: QuoteStyle,
    skipinitialspace: bool,
    lineterminator: LineTerminator)

  /** The values csvdialect_init installs. */
  const Default := Settings(Comma, DoubleQuote, UndefinedChar, true, Minimal, false, SystemDefault)

  /** The values the getters return for a NULL dialect. */
  const NullFallback := Settings(UndefinedChar, UndefinedChar, UndefinedChar, true, Minimal, false, SystemDefault)

  /**
   * The dialect invariant the readers and writers rely on: a defined delimiter, and either
   * doubling or a defined escape character. Quote style and terminator are not part of it.
   */
  predicate IsValid(s: Settings)
  {
    s.delimiter != UndefinedChar && (s.doublequote || s.escapechar != UndefinedChar)
  }

  class Dialect {
    var quotestyle: QuoteStyle
    var lineterminator: LineTerminator
    var delimiter: Byte
    var escapechar: Byte
    var quotechar: Byte
    var doublequote: bool
    var skipinitialspace: bool

    /** The attribute values held by this dialect. */
    function Value(): Settings
      reads this
    {
      Settings(delimiter, quotechar, escapechar, doublequote, quotestyle, skipinitialspace, lineterminator)
    }
  }

  // ---------------------------------------------------------------- getters

  function GetDelimiter(d: Dialect?): (c: Byte)
    reads d
    ensures d == null ==> c == UndefinedChar
    ensures d != null ==> c == d.Value().delimiter
  {
    if d == null then UndefinedChar else d.delimiter
  }

  function GetDoubleQuote(d: Dialect?): (b: bool)
    reads d
    ensures d == null ==> b
    ensures d != null ==> b == d.Value().doublequote
  {
    if d == null then true else d.doublequote
  }

  function GetEscapeChar(d: Dialect?): (c: Byte)
    reads d
    ensures d == null ==> c == UndefinedChar
    ensures d != null ==> c == d.Value().escapechar
  {
    if d == null then UndefinedChar else d.escapechar
  }

  function GetLineTerminator(d: Dialect?): (t: LineTerminator)
    reads d
    ensures d == null ==> t == SystemDefault
    ensures d != null ==> t == d.Value().lineterminator
  {
    if d == null then SystemDefault else d.lineterminator
  }

  function GetQuoteChar(d: Dialect?): (c: Byte)
    reads d
    ensures d == null ==> c == UndefinedChar
    ensures d != null ==> c == d.Value().quotechar
  {
    if d == null then UndefinedChar else d.quotechar
  }

  function GetQuoteStyle(d: Dialect?): (s: QuoteStyle)
    reads d
    ensures d == null ==> s == Minimal
    ensures d != null ==> s == d.Value().quotestyle
  {
    if d == null then Minimal else d.quotestyle
  }

  function GetSkipInitialSpace(d: Dialect?): (b: bool)
    reads d
    ensures d == null ==> !b
    ensures d != null ==> b == d.Value().skipinitialspace
  {
    if d == null then false else d.skipinitialspace
  }

  /** Everything the getters report about a handle, NULL included. */
  function View(d: Dialect?): (s: Settings)
    reads d
    ensures d == null ==> s == NullFallback
    ensures d != null ==> s == d.Value()
  {
    Settings(GetDelimiter(d), GetQuoteChar(d), GetEscapeChar(d), GetDoubleQuote(d),
             GetQuoteStyle(d), GetSkipInitialSpace(d), GetLineTerminator(d))
  }

  // ---------------------------------------------------------------- setters

  method SetDelimiter(d: Dialect?, delimiter: Byte) returns (rc: CsvReturn)
    modifies d
    ensures rc == ReturnOf(d != null && delimiter != UndefinedChar)
    ensures d != null && rc.succeeded ==> GetDelimiter(d) == delimiter
    ensures d != null ==> d.Value() == if rc.succeeded then old(d.Value()).(delimiter := delimiter) else old(d.Value())
  {
    if d == null {
      return ReturnOf(false);
    } else if delimiter == UndefinedChar {
      return ReturnOf(false);
    }
    d.delimiter := delimiter;
    rc := ReturnOf(true);
  }

  method SetDoubleQuote(d: Dialect?, doublequote: bool) returns (rc: CsvReturn)
    modifies d
    ensures rc == ReturnOf(d != null)
    ensures d != null ==> GetDoubleQuote(d) == doublequote
    ensures d != null ==> d.Value() == old(d.Value()).(doublequote := doublequote)
  {
    if d == null {
      return ReturnOf(false);
    }
    d.doublequote := doublequote;
    rc := ReturnOf(true);
  }

  method SetEscapeChar(d: Dialect?, escapechar: Byte) returns (rc: CsvReturn)
    modifies d
    ensures rc == ReturnOf(d != null)
    ensures d != null ==> GetEscapeChar(d) == escapechar
    ensures d != null ==> d.Value() == old(d.Value()).(escapechar := escapechar)
  {
    if d == null {
      return ReturnOf(false);
    }
    d.escapechar := escapechar;
    rc := ReturnOf(true);
  }

  method SetLineTerminator(d: Dialect?, lineterminator: LineTerminator) returns (rc: CsvReturn)
    modifies d
    ensures rc == ReturnOf(d != null)
    ensures d != null ==> GetLineTerminator(d) == lineterminator
    ensures d != null ==> d.Value() == old(d.Value()).(lineterminator := lineterminator)
  {
    if d == null {
      return ReturnOf(false);
    }
    d.lineterminator := lineterminator;
    rc := ReturnOf(true);
  }

  method SetQuoteChar(d: Dialect?, quotechar: Byte) returns (rc: CsvReturn)
    modifies d
    ensures rc == ReturnOf(d != null)
    ensures d != null ==> GetQuoteChar(d) == quotechar
    ensures d != null ==> d.Value() == old(d.Value()).(quotechar := quotechar)
  {
    if d == null {
      return ReturnOf(false);
    }
    d.quotechar := quotechar;
    rc := ReturnOf(true);
  }

  method SetQuoteStyle(d: Dialect?, quotestyle: QuoteStyle) returns (rc: CsvReturn)
    modifies d
    ensures rc == ReturnOf(d != null)
    ensures d != null ==> GetQuoteStyle(d) == quotestyle
    ensures d != null ==> d.Value() == old(d.Value()).(quotestyle := quotestyle)
  {
    if d == null {
      return ReturnOf(false);
    }
    d.quotestyle := quotestyle;
    rc := ReturnOf(true);
  }

  method SetSkipInitialSpace(d: Dialect?, skipinitialspace: bool) returns (rc: CsvReturn)
    modifies d
    ensures rc == ReturnOf(d != null)
    ensures d != null ==> GetSkipInitialSpace(d) == skipinitialspace
    ensures d != null ==> d.Value() == old(d.Value()).(skipinitialspace := skipinitialspace)
  {
    if d == null {
      return ReturnOf(false);
    }
    d.skipinitialspace := skipinitialspace;
    rc := ReturnOf(true);
  }

  // ---------------------------------------------------------------- lifecycle

  /**
   * csvdialect_init: a fresh dialect holding the defaults, set one attribute at a time
   * through the setters. Every setter succeeds on a freshly allocated dialect, so the
   * failure exits of the C code are not reachable here.
   */
  method Init() returns (d: Dialect)
    ensures fresh(d)
    ensures d.Value() == Default
    ensures Validate(d).succeeded
  {
    d := new Dialect;
    var rc := SetDelimiter(d, Comma);
    rc := SetDoubleQuote(d, true);
    rc := SetEscapeChar(d, UndefinedChar);
    rc := SetLineTerminator(d, SystemDefault);
    rc := SetQuoteChar(d, DoubleQuote);
    rc := SetQuoteStyle(d, Minimal);
    rc := SetSkipInitialSpace(d, false);
  }

  /**
   * csvdialect_copy, as written: each setter is called on the SOURCE with the value read
   * from the freshly initialised output, so the source is overwritten with the defaults and
   * the returned dialect holds the defaults, not a copy of the source.
   */
  method Copy(dialect: Dialect?) returns (output: Dialect?)
    modifies dialect
    ensures dialect == null ==> output == null
    ensures dialect != null ==> output != null && fresh(output)
    ensures dialect != null ==> output.Value() == Default && dialect.Value() == Default
  {
    if dialect == null {
      return null;
    }
    var defaults := Init();
    var rc := SetDelimiter(dialect, GetDelimiter(defaults));
    rc := SetDoubleQuote(dialect, GetDoubleQuote(defaults));
    rc := SetEscapeChar(dialect, GetEscapeChar(defaults));
    rc := SetLineTerminator(dialect, GetLineTerminator(defaults));
    rc := SetQuoteChar(dialect, GetQuoteChar(defaults));
    rc := SetQuoteStyle(dialect, GetQuoteStyle(defaults));
    rc := SetSkipInitialSpace(dialect, GetSkipInitialSpace(defaults));
    output := defaults;
  }

  /** csvdialect_close: the handle becomes NULL; on a NULL handle nothing happens. */
  method Close(dialect: Dialect?) returns (handle: Dialect?)
    ensures handle == null
  {
    if dialect == null {
      return null;
    }
    handle := null;
  }

  /**
   * csvdialect_validate: the checks run in order (NULL handle, undefined delimiter,
   * no doubling and no escape character) and the first that fails sets its flag alone;
   * if none fails, only the success flag is set.
   */
  function Validate(d: Dialect?): (rc: CsvReturn)
    reads d
    ensures ExactlyOneValidationFlag(rc)
    ensures rc.dialectNull <==> d == null
    ensures rc.delimiterError <==> d != null && d.delimiter == UndefinedChar
    ensures rc.quoteescapeError <==>
              d != null && d.delimiter != UndefinedChar && !d.doublequote && d.escapechar == UndefinedChar
    ensures rc.succeeded <==> d != null && IsValid(d.Value())
  {
    var rc := ReturnOf(false);
    if d == null then rc.(dialectNull := true)
    else if GetDelimiter(d) == UndefinedChar then rc.(delimiterError := true)
    else if !GetDoubleQuote(d) && GetEscapeChar(d) == UndefinedChar then rc.(quoteescapeError := true)
    else rc.(succeeded := true)
  }

  /**
   * Validation reads only the delimiter, the doubling flag and the escape character: two
   * dialects that agree on those get the same result, whatever their quote character, quote
   * style, skip-initial-space flag and line terminator. In particular style NONE with no
   * escape character passes as long as doubling is on.
   */
  lemma ValidateIgnoresStyleAndTerminator(d: Dialect, e: Dialect)
    requires d.delimiter == e.delimiter && d.doublequote == e.doublequote && d.escapechar == e.escapechar
    ensures Validate(d) == Validate(e)
    ensures (d.delimiter != UndefinedChar && d.doublequote && d.quotestyle == None && d.escapechar == UndefinedChar)
            ==> Validate(d).succeeded
  {
  }
}
