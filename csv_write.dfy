/**
 * The writer of src/csv_write.c: the writer object and its lifecycle, the record encoder
 * csvwriter_next_record, and the file-backed cursor (struct csv_file_writer) that serves a
 * record field by field and a field character by character.
 *
 * The encoder's callbacks are modelled directly: the record is a sequence of fields, each a
 * sequence of bytes, and writechar appends to the writer's `output`.
 */
module CsvWrite {
  import opened Definitions
  import opened CsvDialect
  import opened Encoding
  import Wrappers

  class Writer {
    var dialect: Dialect?
    /** Every byte handed to writechar so far, in order. */
    var output: seq<Byte>
    /** Whether a stream closer is installed. */
    var hasCloser: bool

    constructor (dialect: Dialect)
      ensures this.dialect == dialect && output == [] && !hasCloser
    {
      this.dialect := dialect;
      output := [];
      hasCloser := false;
    }
  }

  /**
   * csvwriter_advanced_init. A NULL dialect is replaced by a default one, any other is passed
   * through csvdialect_copy, which as written overwrites the caller's dialect with the defaults
   * and returns a default dialect. The dialect is never validated, so an invalid one is
   * accepted. Allocation does not fail in this model, so the result is never NULL.
   */
  method AdvancedInit(dialect: Dialect?) returns (writer: Writer?)
    modifies dialect
    ensures writer != null && fresh(writer)
    ensures writer.dialect != null && fresh(writer.dialect)
    ensures writer.dialect.Value() == Default
    ensures writer.output == [] && !writer.hasCloser
    ensures dialect != null ==> dialect.Value() == Default
  {
    var d: Dialect?;
    if dialect == null {
      d := Init();
    } else {
      d := Copy(dialect);
    }
    writer := new Writer(d);
  }

  /** csvwriter_set_closer: installs the closer on a live writer; NULL stays NULL. */
  method SetCloser(writer: Writer?, closer: bool) returns (result: Writer?)
    modifies writer
    ensures result == writer
    ensures writer != null ==> writer.hasCloser == closer
    ensures writer != null ==> writer.dialect == old(writer.dialect) && writer.output == old(writer.output)
  {
    if writer == null {
      return null;
    }
    writer.hasCloser := closer;
    result := writer;
  }

  /**
   * csvwriter_close: runs the closer if one is installed, closes the owned dialect and leaves
   * the handle NULL. On a NULL handle nothing happens and no closer runs.
   */
  method Close(writer: Writer?) returns (handle: Writer?, closerCalled: bool)
    modifies writer
    ensures handle == null
    ensures closerCalled == (writer != null && old(writer.hasCloser))
    ensures writer != null ==> writer.dialect == null && writer.output == old(writer.output)
  {
    if writer == null {
      return null, false;
    }
    closerCalled := writer.hasCloser;
    if writer.dialect != null {
      writer.dialect := CsvDialect.Close(writer.dialect);
    }
    handle := null;
  }

  /**
   * csvwriter_next_record. For each field: decide the quoting, write the delimiter before
   * every field but the first, then the field itself. No line terminator is written. A NULL
   * writer writes nothing and reports failure; otherwise the call reports success.
   */
  method NextRecord(writer: Writer?, record: seq<seq<Byte>>) returns (rc: CsvReturn)
    modifies writer
    ensures rc == ReturnOf(writer != null)
    ensures writer != null ==> writer.output == old(writer.output) + EncodeRecord(old(View(writer.dialect)), record)
    ensures writer != null ==> writer.dialect == old(writer.dialect) && writer.hasCloser == old(writer.hasCloser)
  {
    if writer == null {
      return ReturnOf(false);
    }
    var v := View(writer.dialect);
    ghost var target := writer.output + EncodeRecord(v, record);
    var i := 0;
    while i < |record|
      invariant 0 <= i <= |record|
      invariant writer.dialect == old(writer.dialect) && writer.hasCloser == old(writer.hasCloser)
      invariant writer.output + EncodeFrom(v, record, i) == target
    {
      ghost var before := writer.output;
      var needsQuoting := DecideQuoting(v, record[i]);
      WriteField(writer, v, i, record[i], needsQuoting);
      Regroup(before, Separator(v, i), EncodeField(v, record[i]), EncodeFrom(v, record, i + 1));
      i := i + 1;
    }
    rc := ReturnOf(true);
  }

  /**
   * The quoting decision of csvwriter_next_record: ALL quotes, NONE does not, and MINIMAL
   * scans the field up to the first delimiter, quote, escape, '\n' or '\r'. The flag starts
   * out false for every field.
   */
  method DecideQuoting(v: Settings, field: seq<Byte>) returns (needsQuoting: bool)
    ensures needsQuoting <==> v.quotestyle == All || (v.quotestyle == Minimal && HasSpecial(v, field))
  {
    needsQuoting := false;
    match v.quotestyle {
      case All =>
        needsQuoting := true;
      case None =>
        needsQuoting := false;
      case Minimal =>
        var j := 0;
        while j < |field|
          invariant 0 <= j <= |field|
          invariant !needsQuoting ==> forall k :: 0 <= k < j ==> !IsSpecial(v, field[k])
          invariant needsQuoting ==> HasSpecial(v, field)
        {
          if IsSpecial(v, field[j]) {
            needsQuoting := true;
            break;
          }
          j := j + 1;
        }
    }
  }

  /** writechar: one byte appended to the output. */
  method WriteChar(writer: Writer, c: Byte)
    modifies writer
    ensures writer.output == old(writer.output) + [c]
    ensures writer.dialect == old(writer.dialect) && writer.hasCloser == old(writer.hasCloser)
  {
    writer.output := writer.output + [c];
  }

  /**
   * The per-field part of csvwriter_next_record: the separating delimiter when i > 0, the
   * opening quote, every byte preceded by its prefix when it needs one, the closing quote.
   */
  method WriteField(writer: Writer, v: Settings, i: nat, field: seq<Byte>, needsQuoting: bool)
    modifies writer
    ensures writer.output == old(writer.output) + Separator(v, i) + Framed(v, field, needsQuoting)
    ensures writer.dialect == old(writer.dialect) && writer.hasCloser == old(writer.hasCloser)
  {
    if i > 0 {
      WriteChar(writer, v.delimiter);
    }
    if needsQuoting {
      WriteChar(writer, v.quotechar);
    }
    WriteBody(writer, v, needsQuoting, field);
    if needsQuoting {
      WriteChar(writer, v.quotechar);
    }
  }

  /** The loop over a field's bytes: each written with its prefix when it needs one. */
  method WriteBody(writer: Writer, v: Settings, quoted: bool, field: seq<Byte>)
    modifies writer
    ensures writer.output == old(writer.output) + Body(v, quoted, field)
    ensures writer.dialect == old(writer.dialect) && writer.hasCloser == old(writer.hasCloser)
  {
    assert field[0..] == field;
    var j := 0;
    while j < |field|
      invariant 0 <= j <= |field|
      invariant writer.dialect == old(writer.dialect) && writer.hasCloser == old(writer.hasCloser)
      invariant writer.output + Body(v, quoted, field[j..]) == old(writer.output) + Body(v, quoted, field)
    {
      BodySuffix(v, quoted, field, j);
      ghost var charStart := writer.output;
      WriteFieldChar(writer, v, quoted, field[j]);
      Regroup([], charStart, EncodeChar(v, quoted, field[j]), Body(v, quoted, field[j + 1..]));
      j := j + 1;
    }
    BodySuffix(v, quoted, field, j);
  }

  /**
   * One field byte: in an unquoted field a special byte is preceded by the escape character;
   * in a quoted field the quote character is preceded by itself when doubling, by the escape
   * character otherwise. The byte itself follows, unchanged.
   */
  method WriteFieldChar(writer: Writer, v: Settings, quoted: bool, c: Byte)
    modifies writer
    ensures writer.output == old(writer.output) + EncodeChar(v, quoted, c)
    ensures writer.dialect == old(writer.dialect) && writer.hasCloser == old(writer.hasCloser)
  {
    if !quoted {
      if IsSpecial(v, c) {
        WriteChar(writer, v.escapechar);
      }
    } else {
      if c == v.quotechar {
        if v.doublequote {
          WriteChar(writer, v.quotechar);
        } else {
          WriteChar(writer, v.escapechar);
        }
      }
    }
    WriteChar(writer, c);
  }

  /** Concatenation regrouped, for the writer's loop invariant. */
  lemma Regroup(a: seq<Byte>, b: seq<Byte>, c: seq<Byte>, d: seq<Byte>)
    ensures a + b + c + d == a + (b + c + d)
  {
  }

  // ---------------------------------------------------------------- the file-backed cursor

  /** CSV_CHAR_TYPE as the cursor uses it: unset, or plain `char`. */
  datatype CharType = Undefined | Char

  /** CSV_STREAM_SIGNAL values the cursor returns. */
  datatype Signal = Good | EndOfRecord | EndOfField | Error

  /** strlen: the number of bytes before the first NUL, or all of them if there is none. */
  function StrLen(s: seq<Byte>): (n: nat)
    ensures n <= |s|
    ensures forall k :: 0 <= k < n ==> s[k] != 0
    ensures n < |s| ==> s[n] == 0
  {
    if |s| == 0 || s[0] == 0 then 0 else 1 + StrLen(s[1..])
  }

  /**
   * struct csv_file_writer without its file: the record being written, the current field,
   * their lengths and the read positions in both. A NULL record is None, a NULL field is [].
   */
  class FileWriter {
    var charType: CharType
    var record: Wrappers.Option<seq<seq<Byte>>>
    var field: seq<Byte>
    var capacityR: nat
    var capacityF: nat
    var positionR: nat
    var positionF: nat

    /** Positions never pass the lengths, and the lengths never pass the data. */
    predicate Valid()
      reads this
    {
      && (record.None? ==> capacityR == 0)
      && (record.Some? ==> capacityR <= |record.value|)
      && capacityF <= |field|
      && positionR <= capacityR
      && positionF <= capacityF
    }

    /** csvfilewriter_init: everything NULL or zero, character type unset. */
    constructor ()
      ensures Valid()
      ensures charType == Undefined && record == Wrappers.None && field == []
      ensures capacityR == 0 && capacityF == 0 && positionR == 0 && positionF == 0
    {
      charType := Undefined;
      record := Wrappers.None;
      field := [];
      capacityR, capacityF := 0, 0;
      positionR, positionF := 0, 0;
    }
  }

  /**
   * csvwriter_setrecord: makes `record` (of `length` fields) the active record and rewinds
   * to its first field, unless the stream, the character type or the record is missing or
   * the length is 0, in which case nothing changes.
   */
  method SetRecord(stream: FileWriter?, charType: CharType, record: Wrappers.Option<seq<seq<Byte>>>, length: nat)
    requires stream != null ==> stream.Valid()
    requires record.Some? ==> length <= |record.value|
    modifies stream
    ensures stream != null ==> stream.Valid()
    ensures stream != null && (charType == Undefined || record.None? || length == 0) ==> unchanged(stream)
    ensures stream != null && charType != Undefined && record.Some? && length > 0 ==>
              && stream.charType == charType && stream.record == record
              && stream.capacityR == length && stream.positionR == 0
              && stream.field == old(stream.field) && stream.capacityF == old(stream.capacityF)
              && stream.positionF == old(stream.positionF)
  {
    if stream == null {
      return;
    } else if charType == Undefined {
      return;
    } else if record.None? {
      return;
    } else if length == 0 {
      return;
    }
    stream.charType := charType;
    stream.record := record;
    stream.capacityR := length;
    stream.positionR := 0;
  }

  /**
   * csvwriter_setnextfield: reports the end of the record, without moving, once
   * positionR + 1 reaches the record length, so the last field is never served; otherwise
   * makes the field at positionR current, advances positionR and rewinds positionF.
   */
  method SetNextField(stream: FileWriter?) returns (signal: Signal)
    requires stream != null ==> stream.Valid()
    modifies stream
    ensures stream != null ==> stream.Valid()
    ensures stream == null ==> signal == Error
    ensures stream != null ==> signal != Error && (signal == EndOfRecord <==> old(stream.positionR) + 1 >= old(stream.capacityR))
    ensures stream != null && signal == EndOfRecord ==> unchanged(stream)
    ensures stream != null && signal == Good ==>
              && old(stream.positionR) + 1 < stream.capacityR
              && stream.record.Some?
              && stream.field == stream.record.value[old(stream.positionR)]
              && stream.positionR == old(stream.positionR) + 1
              && stream.capacityF == StrLen(stream.field) && stream.positionF == 0
              && stream.charType == Char
              && stream.record == old(stream.record) && stream.capacityR == old(stream.capacityR)
  {
    if stream == null {
      return Error;
    }
    if stream.positionR + 1 >= stream.capacityR {
      return EndOfRecord;
    }
    var field := stream.record.value[stream.positionR];
    stream.positionR := stream.positionR + 1;
    stream.charType := Char;
    stream.field := field;
    stream.capacityF := StrLen(field);
    stream.positionF := 0;
    signal := Good;
  }

  /**
   * csvwriter_getnextchar: reports the end of the field once positionF + 1 reaches the field
   * length, so the last character is never served; otherwise returns the character at
   * positionF and advances. The character type is set to `char` on a live stream; the value
   * is left as it was unless a character is served.
   */
  method GetNextChar(stream: FileWriter?, charType: CharType, value: Byte)
    returns (signal: Signal, charTypeOut: CharType, valueOut: Byte)
    requires stream != null ==> stream.Valid()
    modifies stream
    ensures stream != null ==> stream.Valid()
    ensures stream == null ==> signal == Error && charTypeOut == charType && valueOut == value
    ensures stream != null ==> charTypeOut == Char
    ensures stream != null ==> signal != Error && (signal == EndOfField <==> old(stream.positionF) + 1 >= old(stream.capacityF))
    ensures stream != null && signal == EndOfField ==> unchanged(stream) && valueOut == value
    ensures stream != null && signal == Good ==>
              && old(stream.positionF) + 1 < stream.capacityF
              && valueOut == stream.field[old(stream.positionF)]
              && stream.positionF == old(stream.positionF) + 1
              && stream.field == old(stream.field) && stream.capacityF == old(stream.capacityF)
              && stream.record == old(stream.record) && stream.positionR == old(stream.positionR)
              && stream.capacityR == old(stream.capacityR) && stream.charType == old(stream.charType)
  {
    if stream == null {
      return Error, charType, value;
    }
    charTypeOut := Char;
    if stream.positionF + 1 >= stream.capacityF {
      return EndOfField, charTypeOut, value;
    }
    valueOut := stream.field[stream.positionF];
    stream.positionF := stream.positionF + 1;
    signal := Good;
  }
}
