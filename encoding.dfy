/**
 * What csvwriter_next_record (src/csv_write.c) writes for one record, as functions of the
 * dialect settings the writer reads through the getters. The writer method in CsvWrite is
 * proved to append exactly EncodeRecord; the lemmas here say what that output means: the
 * quoting decision, the prefixes, the framing quotes, the separators and the lengths. That a
 * reader recovers the fields is proved in module Reading.
 */
module Encoding {
  import opened Definitions
  import opened CsvDialect

  // ---------------------------------------------------------------- per character

  /** A byte that the writer treats specially: delimiter, quote, escape, '\n' or '\r'. */
  predicate IsSpecial(v: Settings, c: Byte)
  {
    c == v.delimiter || c == v.quotechar || c == v.escapechar || c == Newline || c == CarriageReturn
  }

  predicate HasSpecial(v: Settings, f: seq<Byte>)
  {
    exists k :: 0 <= k < |f| && IsSpecial(v, f[k])
  }

  /** The quoting decision: ALL always, NONE never, MINIMAL iff the field holds a special byte. */
  predicate NeedsQuoting(v: Settings, f: seq<Byte>)
  {
    match v.quotestyle
    case All => true
    case None => false
    case Minimal => HasSpecial(v, f)
  }

  /**
   * Whether a field byte is written with a prefix: in a quoted field only the quote
   * character is, in an unquoted field every special byte is.
   */
  predicate Prefixed(v: Settings, quoted: bool, c: Byte)
  {
    if quoted then c == v.quotechar else IsSpecial(v, c)
  }

  /** The prefix: the quote character when doubling inside quotes, the escape character otherwise. */
  function PrefixByte(v: Settings, quoted: bool): Byte
  {
    if quoted && v.doublequote then v.quotechar else v.escapechar
  }

  function EncodeChar(v: Settings, quoted: bool, c: Byte): seq<Byte>
  {
    if Prefixed(v, quoted, c) then [PrefixByte(v, quoted), c] else [c]
  }

  // ---------------------------------------------------------------- per field and record

  /** The bytes written for the characters of a field, in order. */
  function Body(v: Settings, quoted: bool, f: seq<Byte>): seq<Byte>
  {
    if |f| == 0 then [] else EncodeChar(v, quoted, f[0]) + Body(v, quoted, f[1..])
  }

  /** A field's body, between an opening and a closing quote character when quoted. */
  function Framed(v: Settings, f: seq<Byte>, quoted: bool): seq<Byte>
  {
    if quoted then [v.quotechar] + Body(v, true, f) + [v.quotechar] else Body(v, false, f)
  }

  function EncodeField(v: Settings, f: seq<Byte>): seq<Byte>
  {
    Framed(v, f, NeedsQuoting(v, f))
  }

  /** The delimiter written before every field but the first. */
  function Separator(v: Settings, i: nat): seq<Byte>
  {
    if i > 0 then [v.delimiter] else []
  }

  /** What is written for the fields of `rec` from index i on. */
  function EncodeFrom(v: Settings, rec: seq<seq<Byte>>, i: nat): seq<Byte>
    decreases |rec| - i
  {
    if i >= |rec| then [] else Separator(v, i) + EncodeField(v, rec[i]) + EncodeFrom(v, rec, i + 1)
  }

  /**
   * What one call of csvwriter_next_record writes: the encoded fields joined by the delimiter,
   * with none before the first or after the last, and no line terminator.
   */
  function EncodeRecord(v: Settings, rec: seq<seq<Byte>>): (r: seq<Byte>)
    ensures r == Join([v.delimiter], EncodedFields(v, rec))
  {
    var r := EncodeFrom(v, rec, 0);
    if |rec| == 0 then r else EncodeFromIsJoin(v, rec, 1); r
  }

  // ---------------------------------------------------------------- reference definitions

  /** Parts joined by a separator, with nothing before the first or after the last. */
  function Join(sep: seq<Byte>, parts: seq<seq<Byte>>): seq<Byte>
  {
    if |parts| == 0 then []
    else if |parts| == 1 then parts[0]
    else parts[0] + sep + Join(sep, parts[1..])
  }

  function EncodedFields(v: Settings, rec: seq<seq<Byte>>): seq<seq<Byte>>
  {
    seq(|rec|, k requires 0 <= k < |rec| => EncodeField(v, rec[k]))
  }

  function SumLengths(parts: seq<seq<Byte>>): nat
  {
    if |parts| == 0 then 0 else |parts[0]| + SumLengths(parts[1..])
  }

  /** How many bytes of a field get a prefix. */
  function PrefixCount(v: Settings, quoted: bool, f: seq<Byte>): nat
  {
    if |f| == 0 then 0 else (if Prefixed(v, quoted, f[0]) then 1 else 0) + PrefixCount(v, quoted, f[1..])
  }

  // ---------------------------------------------------------------- lemmas about a field

  /** The body of a field's suffix from j on: the encoding of byte j, then of the rest. */
  lemma BodySuffix(v: Settings, quoted: bool, f: seq<Byte>, j: nat)
    requires j <= |f|
    ensures j == |f| ==> Body(v, quoted, f[j..]) == []
    ensures j < |f| ==> Body(v, quoted, f[j..]) == EncodeChar(v, quoted, f[j]) + Body(v, quoted, f[j + 1..])
  {
    if j < |f| {
      assert f[j..][1..] == f[j + 1..];
    }
  }

  /** A body is the field plus one byte per prefixed character. */
  lemma {:induction false} BodyLength(v: Settings, quoted: bool, f: seq<Byte>)
    ensures |Body(v, quoted, f)| == |f| + PrefixCount(v, quoted, f)
  {
    if |f| > 0 {
      BodyLength(v, quoted, f[1..]);
    }
  }

  /** A field none of whose bytes needs a prefix is written verbatim. */
  lemma {:induction false} BodyVerbatim(v: Settings, quoted: bool, f: seq<Byte>)
    requires forall k :: 0 <= k < |f| ==> !Prefixed(v, quoted, f[k])
    ensures Body(v, quoted, f) == f
  {
    if |f| > 0 {
      BodyVerbatim(v, quoted, f[1..]);
    }
  }

  /**
   * The framing by style: ALL always encloses the body in one quote character on each side,
   * NONE never does, MINIMAL does exactly for fields with a special byte.
   */
  lemma FramingByStyle(v: Settings, f: seq<Byte>)
    ensures v.quotestyle == All ==> EncodeField(v, f) == [v.quotechar] + Body(v, true, f) + [v.quotechar]
    ensures v.quotestyle == None ==> EncodeField(v, f) == Body(v, false, f)
    ensures v.quotestyle == Minimal && HasSpecial(v, f) ==> EncodeField(v, f) == [v.quotechar] + Body(v, true, f) + [v.quotechar]
  {
  }

  /**
   * Under MINIMAL the output starts with the quote character exactly when the field holds a
   * special byte; otherwise the field is written verbatim, so no escape prefix is ever written.
   */
  lemma MinimalQuoting(v: Settings, f: seq<Byte>)
    requires v.quotestyle == Minimal
    ensures !HasSpecial(v, f) ==> EncodeField(v, f) == f
    ensures HasSpecial(v, f) <==> |EncodeField(v, f)| > 0 && EncodeField(v, f)[0] == v.quotechar
  {
    if !HasSpecial(v, f) {
      BodyVerbatim(v, false, f);
      if |f| > 0 {
        assert !IsSpecial(v, f[0]);
      }
    }
  }

  /** The field's length, plus one per prefixed byte, plus two framing quotes when quoted. */
  lemma FieldLength(v: Settings, f: seq<Byte>)
    ensures |EncodeField(v, f)| == |f| + PrefixCount(v, NeedsQuoting(v, f), f) + (if NeedsQuoting(v, f) then 2 else 0)
  {
    BodyLength(v, NeedsQuoting(v, f), f);
  }

  // ---------------------------------------------------------------- lemmas about a record

  /** From field i > 0 on, the output is a delimiter before each remaining encoded field. */
  lemma {:induction false} EncodeFromIsJoin(v: Settings, rec: seq<seq<Byte>>, i: nat)
    requires 1 <= i <= |rec|
    ensures EncodeFrom(v, rec, i) == if i == |rec| then [] else [v.delimiter] + Join([v.delimiter], EncodedFields(v, rec)[i..])
    decreases |rec| - i
  {
    if i < |rec| {
      var sep := [v.delimiter];
      var parts := EncodedFields(v, rec)[i..];
      var head := EncodeField(v, rec[i]);
      assert parts[0] == head;
      EncodeFromIsJoin(v, rec, i + 1);
      if i + 1 == |rec| {
        assert |parts| == 1;
        assert EncodeFrom(v, rec, i) == sep + head;
      } else {
        var rest := EncodedFields(v, rec)[i + 1..];
        assert parts[1..] == rest;
        assert Join(sep, parts) == head + sep + Join(sep, rest);
        assert EncodeFrom(v, rec, i) == sep + head + (sep + Join(sep, rest));
      }
    }
  }

  /** A join ends with its last part: nothing is written after it. */
  lemma {:induction false} JoinEndsWithLast(sep: seq<Byte>, parts: seq<seq<Byte>>)
    requires |parts| >= 2
    ensures Join(sep, parts) == Join(sep, parts[..|parts| - 1]) + sep + parts[|parts| - 1]
  {
    if |parts| > 2 {
      JoinEndsWithLast(sep, parts[1..]);
      assert parts[1..][..|parts| - 2] == parts[..|parts| - 1][1..];
    }
  }

  /** A join of n parts with a one-byte separator has n - 1 bytes besides the parts. */
  lemma {:induction false} JoinLength(d: Byte, parts: seq<seq<Byte>>)
    requires |parts| > 0
    ensures |Join([d], parts)| == SumLengths(parts) + |parts| - 1
  {
    if |parts| > 1 {
      JoinLength(d, parts[1..]);
    }
  }

  /** The record's length: its encoded fields plus one delimiter between each two of them. */
  lemma RecordLength(v: Settings, rec: seq<seq<Byte>>)
    requires |rec| > 0
    ensures |EncodeRecord(v, rec)| == SumLengths(EncodedFields(v, rec)) + |rec| - 1
  {
    JoinLength(v.delimiter, EncodedFields(v, rec));
  }

  // ---------------------------------------------------------------- the encoder as written

  /**
   * needs_quoting is declared once for the whole record. ALL and NONE assign it for every
   * field, but MINIMAL only ever sets it to true, so it carries over from the previous
   * field. The value before the first field is taken to be false.
   */
  predicate AsWrittenQuoting(v: Settings, f: seq<Byte>, carried: bool)
  {
    match v.quotestyle
    case All => true
    case None => false
    case Minimal => carried || HasSpecial(v, f)
  }

  function EncodeFromAsWritten(v: Settings, rec: seq<seq<Byte>>, i: nat, carried: bool): seq<Byte>
    decreases |rec| - i
  {
    if i >= |rec| then []
    else
      var quoted := AsWrittenQuoting(v, rec[i], carried);
      Separator(v, i) + Framed(v, rec[i], quoted) + EncodeFromAsWritten(v, rec, i + 1, quoted)
  }

  /** Only the carried flag separates the two: with ALL or NONE, or a single field, they agree. */
  function EncodeRecordAsWritten(v: Settings, rec: seq<seq<Byte>>): (r: seq<Byte>)
    ensures v.quotestyle != Minimal ==> r == EncodeRecord(v, rec)
    ensures |rec| <= 1 ==> r == EncodeRecord(v, rec)
  {
    var r := EncodeFromAsWritten(v, rec, 0, false);
    if v.quotestyle != Minimal then AsWrittenAgreesOutsideMinimal(v, rec, 0, false); r
    else if |rec| != 1 then r
    else
      assert AsWrittenQuoting(v, rec[0], false) == NeedsQuoting(v, rec[0]);
      assert EncodeFromAsWritten(v, rec, 1, NeedsQuoting(v, rec[0])) == [] == EncodeFrom(v, rec, 1);
      r
  }

  /** With style ALL or NONE the carried flag is irrelevant: as written equals intended. */
  lemma {:induction false} AsWrittenAgreesOutsideMinimal(v: Settings, rec: seq<seq<Byte>>, i: nat, carried: bool)
    requires v.quotestyle != Minimal
    ensures EncodeFromAsWritten(v, rec, i, carried) == EncodeFrom(v, rec, i)
    decreases |rec| - i
  {
    if i < |rec| {
      AsWrittenAgreesOutsideMinimal(v, rec, i + 1, AsWrittenQuoting(v, rec[i], carried));
    }
  }

  /**
   * Under the default dialect the record [",", "a"] is written as written as `",","a"`:
   * the second field is quoted although it holds no special byte, where the documented
   * rule writes `",",a`.
   */
  lemma StickyQuotingCounterexample()
    ensures EncodeRecordAsWritten(Default, [[Comma], [97]]) == [DoubleQuote, Comma, DoubleQuote, Comma, DoubleQuote, 97, DoubleQuote]
    ensures EncodeRecord(Default, [[Comma], [97]]) == [DoubleQuote, Comma, DoubleQuote, Comma, 97]
  {
    var v, rec := Default, [[Comma], [97]];
    var first, second: seq<Byte> := [Comma], [97];
    assert rec[0] == first && rec[1] == second;
    assert IsSpecial(v, first[0]);
    assert NeedsQuoting(v, first);
    assert !HasSpecial(v, second);
    assert Body(v, true, first) == [Comma] by {
      assert Body(v, true, first[1..]) == [];
    }
    assert Body(v, true, second) == [97] && Body(v, false, second) == [97] by {
      assert Body(v, true, second[1..]) == [] && Body(v, false, second[1..]) == [];
    }
    assert EncodeFromAsWritten(v, rec, 1, true) == [Comma, DoubleQuote, 97, DoubleQuote];
    assert EncodeFrom(v, rec, 1) == [Comma, 97];
  }

  // ---------------------------------------------------------------- the escape rule as intended

  /**
   * Inside quotes the writer prefixes only the quote character, so an escape character in a
   * quoted field is written bare. The intended rule also escapes the escape character itself,
   * when one is defined; every other byte is encoded as before.
   */
  function EscapedQuotedChar(v: Settings, c: Byte): seq<Byte>
  {
    if c != v.quotechar && v.escapechar != UndefinedChar && c == v.escapechar then [v.escapechar, c]
    else EncodeChar(v, true, c)
  }

  function EscapedQuotedBody(v: Settings, f: seq<Byte>): seq<Byte>
  {
    if |f| == 0 then [] else EscapedQuotedChar(v, f[0]) + EscapedQuotedBody(v, f[1..])
  }

  /** A field under the intended rule: the quoting decision and the unquoted form are unchanged. */
  function EncodeFieldEscaped(v: Settings, f: seq<Byte>): seq<Byte>
  {
    if NeedsQuoting(v, f) then [v.quotechar] + EscapedQuotedBody(v, f) + [v.quotechar]
    else Body(v, false, f)
  }

  /** The two rules differ only on fields that hold the escape character. */
  lemma {:induction false} EscapedAgreesWithoutEscape(v: Settings, f: seq<Byte>)
    requires v.escapechar != UndefinedChar ==> forall k :: 0 <= k < |f| ==> f[k] != v.escapechar
    ensures EscapedQuotedBody(v, f) == Body(v, true, f)
    ensures EncodeFieldEscaped(v, f) == EncodeField(v, f)
  {
    if |f| > 0 {
      assert v.escapechar != UndefinedChar ==> f[0] != v.escapechar;
      EscapedAgreesWithoutEscape(v, f[1..]);
    }
  }
}
