/**
 * A reader for one record, following the reading rules include/csv/dialect.h documents for
 * a dialect, and the proof that it reads back what the writer writes.
 *
 * The rules, byte by byte from the left:
 *  - a field that starts with the quote character is quoted (dialect.h:32-38);
 *  - inside quotes, two quote characters stand for one when doubling is on, and otherwise a
 *    quote character is text only after the escape character (dialect.h:110-115, 133);
 *    a lone quote character closes the field;
 *  - the escape character, when defined, makes the next byte text (dialect.h:158-163);
 *  - outside quotes a field ends at the delimiter, or at an unescaped '\n' or '\r', which
 *    ends the record (dialect.h:185-186);
 *  - after a field comes the delimiter and the next field, or the end of the record.
 */
module Reading {
  import opened Definitions
  import opened CsvDialect
  import opened Encoding
  import Wrappers

  /** A field read off the front of the input, and the input left after it. */
  datatype Split = Split(field: seq<Byte>, rest: seq<Byte>)

  /** Whether c makes the byte after it text: it is the escape character, and one is defined. */
  predicate Escapes(v: Settings, c: Byte)
  {
    v.escapechar != UndefinedChar && c == v.escapechar
  }

  /** A byte that ends an unquoted field: the delimiter, or an unescaped '\n' or '\r'. */
  predicate EndsUnquoted(v: Settings, c: Byte)
  {
    c == v.delimiter || c == Newline || c == CarriageReturn
  }

  /** An unquoted field: up to the first byte that ends it, with escapes resolved. */
  function ReadUnquoted(v: Settings, s: seq<Byte>): (r: Split)
    ensures |r.rest| <= |s|
    ensures r.rest == [] || EndsUnquoted(v, r.rest[0])
  {
    if |s| == 0 || EndsUnquoted(v, s[0]) then Split([], s)
    else if Escapes(v, s[0]) && |s| >= 2 then
      var r := ReadUnquoted(v, s[2..]);
      Split([s[1]] + r.field, r.rest)
    else
      var r := ReadUnquoted(v, s[1..]);
      Split([s[0]] + r.field, r.rest)
  }

  /** The byte c put in front of the field of a successful read. */
  function Prepend(c: Byte, r: Wrappers.Option<Split>): Wrappers.Option<Split>
  {
    if r.None? then Wrappers.None else Wrappers.Some(Split([c] + r.value.field, r.value.rest))
  }

  /**
   * The body of a quoted field, read after its opening quote, up to and past its closing
   * quote. Input that ends before a closing quote is not a field.
   */
  function ReadQuoted(v: Settings, s: seq<Byte>): (r: Wrappers.Option<Split>)
    ensures r.Some? ==> |r.value.rest| < |s|
  {
    if |s| == 0 then Wrappers.None
    else if s[0] == v.quotechar then
      if v.doublequote && |s| >= 2 && s[1] == v.quotechar then Prepend(s[1], ReadQuoted(v, s[2..]))
      else Wrappers.Some(Split([], s[1..]))
    else if Escapes(v, s[0]) && |s| >= 2 then Prepend(s[1], ReadQuoted(v, s[2..]))
    else Prepend(s[0], ReadQuoted(v, s[1..]))
  }

  /** One field, quoted when it starts with the quote character. */
  function ReadField(v: Settings, s: seq<Byte>): (r: Wrappers.Option<Split>)
    ensures r.Some? ==> |r.value.rest| <= |s|
  {
    if |s| > 0 && s[0] == v.quotechar then ReadQuoted(v, s[1..]) else Wrappers.Some(ReadUnquoted(v, s))
  }

  /**
   * A whole record: fields separated by the delimiter. Anything else after a field (an
   * unescaped line break, text after a closing quote) or an unclosed quote makes the input
   * not one record. Every record read has at least one field.
   */
  function DecodeRecord(v: Settings, s: seq<Byte>): (r: Wrappers.Option<seq<seq<Byte>>>)
    ensures r.Some? ==> |r.value| > 0
    decreases |s|
  {
    var first := ReadField(v, s);
    if first.None? then Wrappers.None
    else if |first.value.rest| == 0 then Wrappers.Some([first.value.field])
    else if first.value.rest[0] != v.delimiter then Wrappers.None
    else
      var others := DecodeRecord(v, first.value.rest[1..]);
      if others.None? then Wrappers.None else Wrappers.Some([first.value.field] + others.value)
  }

  // ---------------------------------------------------------------- when the writer's output reads back

  /**
   * Dialects whose output can be read back: valid, the delimiter, quote and escape characters
   * told apart from each other and the escape character from the line breaks, and an escape
   * character for style NONE, which escapes instead of quoting.
   */
  predicate Unambiguous(v: Settings)
  {
    && IsValid(v)
    && v.quotechar != v.delimiter && v.quotechar != v.escapechar && v.delimiter != v.escapechar
    && v.escapechar != Newline && v.escapechar != CarriageReturn
    && (v.quotestyle == None ==> v.escapechar != UndefinedChar)
  }

  /** Inside quotes the writer leaves the escape character bare, so a quoted field must not hold it. */
  predicate QuotedEscapeFree(v: Settings, f: seq<Byte>)
  {
    NeedsQuoting(v, f) && v.escapechar != UndefinedChar ==> forall k :: 0 <= k < |f| ==> f[k] != v.escapechar
  }

  /** A field with no special byte has a tail with none. */
  lemma NoSpecialInTail(v: Settings, f: seq<Byte>)
    requires |f| > 0 && !HasSpecial(v, f)
    ensures !HasSpecial(v, f[1..])
  {
    forall k | 0 <= k < |f| - 1
      ensures !IsSpecial(v, f[1..][k])
    {
      assert f[1..][k] == f[k + 1];
    }
  }

  /**
   * The unquoted reader over the encoding of one byte: the byte comes back, whether it was
   * written alone or behind the escape character.
   */
  lemma UnquotedCharReadBack(v: Settings, c: Byte, t: seq<Byte>)
    requires v.delimiter != v.escapechar && v.escapechar != Newline && v.escapechar != CarriageReturn
    requires IsSpecial(v, c) ==> v.escapechar != UndefinedChar
    ensures ReadUnquoted(v, EncodeChar(v, false, c) + t) == Split([c] + ReadUnquoted(v, t).field, ReadUnquoted(v, t).rest)
  {
    if Prefixed(v, false, c) {
      assert ([v.escapechar, c] + t)[2..] == t;
    } else {
      assert ([c] + t)[1..] == t;
    }
  }

  /**
   * The quoted reader over the encoding of one byte other than the escape character: the byte
   * comes back, a quote character included, whether doubled or escaped.
   */
  lemma QuotedCharReadBack(v: Settings, c: Byte, t: seq<Byte>)
    requires IsValid(v) && v.quotechar != v.escapechar
    requires !Escapes(v, c)
    ensures ReadQuoted(v, EncodeChar(v, true, c) + t) == Prepend(c, ReadQuoted(v, t))
  {
    if Prefixed(v, true, c) {
      assert ([PrefixByte(v, true), c] + t)[2..] == t;
    } else {
      assert ([c] + t)[1..] == t;
    }
  }

  /** The same under the intended rule, where the escape character is escaped too. */
  lemma EscapedQuotedCharReadBack(v: Settings, c: Byte, t: seq<Byte>)
    requires IsValid(v) && v.quotechar != v.escapechar
    ensures ReadQuoted(v, EscapedQuotedChar(v, c) + t) == Prepend(c, ReadQuoted(v, t))
  {
    if c == v.quotechar {
      QuotedCharReadBack(v, c, t);
    } else if Escapes(v, c) {
      assert ([v.escapechar, c] + t)[2..] == t;
    } else {
      QuotedCharReadBack(v, c, t);
    }
  }

  /** A lone quote character closes a quoted field. */
  lemma ReadQuotedClose(v: Settings, t: seq<Byte>)
    requires t == [] || t[0] != v.quotechar
    ensures ReadQuoted(v, [v.quotechar] + t) == Wrappers.Some(Split([], t))
  {
    assert ([v.quotechar] + t)[1..] == t;
  }

  /** A body is the encoding of its first byte followed by the body of the rest. */
  lemma BodyCons(v: Settings, quoted: bool, f: seq<Byte>, t: seq<Byte>)
    requires |f| > 0
    ensures Body(v, quoted, f) + t == EncodeChar(v, quoted, f[0]) + (Body(v, quoted, f[1..]) + t)
  {
  }

  /**
   * An unquoted body reads back to its field, stopping where the field ends: every special
   * byte is behind an escape character, so no delimiter or line break is met early.
   */
  lemma {:induction false} UnquotedReadBack(v: Settings, f: seq<Byte>, rest: seq<Byte>)
    requires v.delimiter != v.escapechar && v.escapechar != Newline && v.escapechar != CarriageReturn
    requires v.escapechar != UndefinedChar || !HasSpecial(v, f)
    requires rest == [] || EndsUnquoted(v, rest[0])
    ensures ReadUnquoted(v, Body(v, false, f) + rest) == Split(f, rest)
  {
    if |f| > 0 {
      if v.escapechar == UndefinedChar {
        NoSpecialInTail(v, f);
      }
      UnquotedReadBack(v, f[1..], rest);
      BodyCons(v, false, f, rest);
      UnquotedCharReadBack(v, f[0], Body(v, false, f[1..]) + rest);
      assert [f[0]] + f[1..] == f;
    }
  }

  /**
   * A quoted body followed by the closing quote reads back to its field: doubled or escaped
   * quote characters are text, and the closing quote is the first lone one.
   */
  lemma {:induction false} QuotedReadBack(v: Settings, f: seq<Byte>, rest: seq<Byte>)
    requires IsValid(v) && v.quotechar != v.escapechar
    requires forall k :: 0 <= k < |f| ==> !Escapes(v, f[k])
    requires rest == [] || rest[0] != v.quotechar
    ensures ReadQuoted(v, Body(v, true, f) + ([v.quotechar] + rest)) == Wrappers.Some(Split(f, rest))
  {
    if |f| == 0 {
      assert Body(v, true, f) + ([v.quotechar] + rest) == [v.quotechar] + rest;
      ReadQuotedClose(v, rest);
    } else {
      assert forall k :: 0 <= k < |f[1..]| ==> f[1..][k] == f[k + 1];
      QuotedReadBack(v, f[1..], rest);
      BodyCons(v, true, f, [v.quotechar] + rest);
      QuotedCharReadBack(v, f[0], Body(v, true, f[1..]) + ([v.quotechar] + rest));
      assert [f[0]] + f[1..] == f;
    }
  }

  /** One encoded field, followed by a delimiter or by nothing, reads back to the field. */
  lemma FieldReadBack(v: Settings, f: seq<Byte>, rest: seq<Byte>)
    requires Unambiguous(v) && QuotedEscapeFree(v, f)
    requires rest == [] || rest[0] == v.delimiter
    ensures ReadField(v, EncodeField(v, f) + rest) == Wrappers.Some(Split(f, rest))
  {
    var s := EncodeField(v, f) + rest;
    if NeedsQuoting(v, f) {
      QuotedReadBack(v, f, rest);
      assert s[1..] == Body(v, true, f) + ([v.quotechar] + rest);
    } else {
      UnquotedReadBack(v, f, rest);
      if |f| > 0 {
        assert s[0] == Body(v, false, f)[0];
      }
    }
  }

  /** The fields from i on, written as the writer writes them, read back to those fields. */
  lemma {:induction false} FromReadBack(v: Settings, rec: seq<seq<Byte>>, i: nat)
    requires Unambiguous(v) && i < |rec|
    requires forall k :: 0 <= k < |rec| ==> QuotedEscapeFree(v, rec[k])
    ensures DecodeRecord(v, EncodeField(v, rec[i]) + EncodeFrom(v, rec, i + 1)) == Wrappers.Some(rec[i..])
    decreases |rec| - i
  {
    var field := EncodeField(v, rec[i]);
    var rest := EncodeFrom(v, rec, i + 1);
    FieldReadBack(v, rec[i], rest);
    if i + 1 == |rec| {
      assert rec[i..] == [rec[i]];
    } else {
      var next := EncodeField(v, rec[i + 1]) + EncodeFrom(v, rec, i + 2);
      assert rest == [v.delimiter] + next;
      assert rest[1..] == next;
      FromReadBack(v, rec, i + 1);
      assert rec[i..] == [rec[i]] + rec[i + 1..];
    }
  }

  /**
   * A record of at least one field, written by the writer with a dialect that can be read back,
   * reads back to the same fields, provided no quoted field holds the escape character.
   */
  lemma RecordReadBack(v: Settings, rec: seq<seq<Byte>>)
    requires Unambiguous(v) && |rec| > 0
    requires forall k :: 0 <= k < |rec| ==> QuotedEscapeFree(v, rec[k])
    ensures DecodeRecord(v, EncodeRecord(v, rec)) == Wrappers.Some(rec)
  {
    FromReadBack(v, rec, 0);
    assert EncodeRecord(v, rec) == EncodeField(v, rec[0]) + EncodeFrom(v, rec, 1);
    assert rec[0..] == rec;
  }

  /**
   * The empty record and the record of one empty field are written alike under MINIMAL and
   * NONE, which is why a record must have a field to be read back.
   */
  lemma EmptyRecordAmbiguous(v: Settings)
    requires v.quotestyle != All
    ensures EncodeRecord(v, []) == EncodeRecord(v, [[]]) == []
  {
    assert EncodeFrom(v, [[]], 1) == [];
  }

  // ---------------------------------------------------------------- the escape character inside quotes

  /**
   * With doubling off and '\' as the escape character, the field `a\` is quoted (it holds the
   * escape character) and written `"a\"`. The reader takes `\"` for an escaped quote and finds
   * no closing quote, so the record does not read back.
   */
  lemma EscapeInQuotedFieldCounterexample()
    ensures EncodeRecord(Settings(Comma, DoubleQuote, 92, false, Minimal, false, SystemDefault), [[97, 92]])
            == [DoubleQuote, 97, 92, DoubleQuote]
    ensures DecodeRecord(Settings(Comma, DoubleQuote, 92, false, Minimal, false, SystemDefault), [DoubleQuote, 97, 92, DoubleQuote])
            == Wrappers.None
  {
    var v := Settings(Comma, DoubleQuote, 92, false, Minimal, false, SystemDefault);
    var f: seq<Byte> := [97, 92];
    assert IsSpecial(v, f[1]);
    assert Body(v, true, f) == [97, 92] by {
      assert f[1..][1..] == [];
    }
    assert EncodeFrom(v, [f], 1) == [];
    var s: seq<Byte> := [DoubleQuote, 97, 92, DoubleQuote];
    assert s[1..][1..] == [92, DoubleQuote];
    assert ReadQuoted(v, [92, DoubleQuote]) == Wrappers.None by {
      assert [92, DoubleQuote][2..] == [];
    }
  }

  /** Under the intended rule the escape character is escaped inside quotes and reads back. */
  lemma {:induction false} EscapedQuotedReadBack(v: Settings, f: seq<Byte>, rest: seq<Byte>)
    requires IsValid(v) && v.quotechar != v.escapechar
    requires rest == [] || rest[0] != v.quotechar
    ensures ReadQuoted(v, EscapedQuotedBody(v, f) + ([v.quotechar] + rest)) == Wrappers.Some(Split(f, rest))
  {
    if |f| == 0 {
      assert EscapedQuotedBody(v, f) + ([v.quotechar] + rest) == [v.quotechar] + rest;
      ReadQuotedClose(v, rest);
    } else {
      var t := [v.quotechar] + rest;
      EscapedQuotedReadBack(v, f[1..], rest);
      assert EscapedQuotedBody(v, f) + t == EscapedQuotedChar(v, f[0]) + (EscapedQuotedBody(v, f[1..]) + t);
      EscapedQuotedCharReadBack(v, f[0], EscapedQuotedBody(v, f[1..]) + t);
      assert [f[0]] + f[1..] == f;
    }
  }

  /** Every field written under the intended rule reads back, escape characters included. */
  lemma EscapedFieldReadBack(v: Settings, f: seq<Byte>, rest: seq<Byte>)
    requires Unambiguous(v)
    requires rest == [] || rest[0] == v.delimiter
    ensures ReadField(v, EncodeFieldEscaped(v, f) + rest) == Wrappers.Some(Split(f, rest))
  {
    var s := EncodeFieldEscaped(v, f) + rest;
    if NeedsQuoting(v, f) {
      EscapedQuotedReadBack(v, f, rest);
      assert s[1..] == EscapedQuotedBody(v, f) + ([v.quotechar] + rest);
    } else {
      UnquotedReadBack(v, f, rest);
      if |f| > 0 {
        assert s[0] == Body(v, false, f)[0];
      }
    }
  }

  // ---------------------------------------------------------------- style NONE without an escape character

  /**
   * Validation accepts style NONE with no escape character, and the writer then puts the
   * undefined character (255) in front of each special byte, where dialect.h:25-31 calls such
   * a dialect invalid.
   */
  lemma NoneWithoutEscapeWritesUndefined()
    ensures IsValid(Default.(quotestyle := None))
    ensures EncodeField(Default.(quotestyle := None), [Comma]) == [UndefinedChar, Comma]
  {
    var v := Default.(quotestyle := None);
    var f: seq<Byte> := [Comma];
    assert Body(v, false, f) == [UndefinedChar, Comma] by {
      assert f[1..] == [];
    }
  }
}
