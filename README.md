# CSV writer and dialect: a Dafny model

This project models the writing half of a small C CSV library:

- the **dialect** (`struct csv_dialect`, src/csv_dialect.c): a mutable configuration object holding
  - the delimiter, quote and escape characters;
  - the double-quote flag, the quote style (MINIMAL, NONE, ALL), skip-initial-space and the line terminator;
  - with a setter and a getter per attribute, plus init, copy, close and validate;
- the **return flags** (`csvreturn`, include/csv/definitions.h): six independent one-bit flags, with `csv_success` and `csv_failure`;
- the **writer** (src/csv_write.c):
  - its lifecycle: `csvwriter_advanced_init`, `csvwriter_set_closer` and `csvwriter_close`;
  - the record encoder `csvwriter_next_record`. It decides whether each field is quoted, writes a delimiter between fields, frames quoted fields with the quote character, and prefixes the bytes that need it: the escape character in an unquoted field, and the doubled quote or the escape character for a quote inside a quoted field;
- the **file-backed cursor** (`struct csv_file_writer`). It serves a record field by field and a field byte by byte through `csvwriter_setrecord`, `csvwriter_setnextfield` and `csvwriter_getnextchar`;
- a **reference reader** (module `Reading`) that reads one record left to right by the rules include/csv/dialect.h documents for a dialect:
  - a field starting with the quote character is quoted (dialect.h:32-38);
  - inside quotes a doubled quote, or an escaped one when doubling is off, is text, and a lone quote closes the field (dialect.h:110-115, 133);
  - a defined escape character makes the next byte text (dialect.h:158-163);
  - outside quotes an unescaped '\n' or '\r' ends the record (dialect.h:185-186).

Characters are bytes (`Byte`, 0..255). `CSV_UNDEFINED_CHAR` is 255. A NULL handle is a null
reference of a nullable class type (`Dialect?`, `Writer?`, `FileWriter?`). The dialect and the
writer are classes whose methods update fields in place. The writer's `output` field stands
for the stream that `writechar` appends to.

The encoder is specified twice:

- `CsvWrite.NextRecord` is a loop over the fields, with an inner loop over each field's bytes, as in the C code.
- `Encoding.EncodeRecord` is a function, proved equal to the loop's output.

Properties of the encoding are proved about the function:

- it is a delimiter join of the encoded fields;
- the MINIMAL rule, the output length, and what the styles ALL and NONE do;
- the reference reader gets every record of at least one field back, under conditions. The dialect must be valid. The delimiter, quote and escape characters must be distinct, and the escape character must not be a line break. Style NONE needs an escape character. No quoted field may hold the escape character (see the second finding).

Behaviour modelled as the code does it, where it differs from what the headers document:

- `csvdialect_copy` (src/csv_dialect.c:82-143) calls each setter on the *source* dialect with the value read from a freshly initialised dialect. So the source is overwritten with the defaults, and the "copy" holds the defaults. `CsvDialect.Copy` states exactly this. `CsvWrite.AdvancedInit` goes through it, so every writer's dialect holds the defaults.
- include/csv/write.h:23-26 says an invalid dialect yields a NULL writer. `csvwriter_advanced_init` never validates, so `AdvancedInit` never returns NULL.
- `csvwriter_setnextfield` reports end-of-record once `position_r + 1 >= capacity_r`, so the last field of a record is never served. `csvwriter_getnextchar` does the same with the last byte of a field. `SetNextField` and `GetNextChar` state these bounds as written.
- include/csv/dialect.h:25-31 calls style NONE without an escape character an invalid state. `csvdialect_validate` accepts it, and the writer then puts the undefined character (255) before each special byte. `Reading.NoneWithoutEscapeWritesUndefined` shows both.

One interpretation, where the code as written is not well formed:

- `csvreturn_init` is declared `(void)` (include/csv/definitions.h:54-58). src/csv_write.c and src/csv_dialect.c call it with `true` or `false`, which does not match that prototype. The reader, record and field sources call it with no argument. `Definitions.ReturnInit` is the declared function: every flag clear. `Definitions.ReturnOf(ok)` is an interpretation of the one-argument calls: every flag clear except `succeeded`, which is `ok`.

## Model

| member | source | states |
|---|---|---|
| Definitions.ReturnInit | include/csv/definitions.h:54-58 | every one of the six flags is clear |
| Definitions.ReturnOf | include/csv/definitions.h:40-47 | the success flag is the argument and every other flag is clear |
| Definitions.Success | include/csv/definitions.h:70-72 | true exactly when the success flag is set |
| Definitions.Failure | include/csv/definitions.h:84-86 | true exactly when csv_success is false |
| Definitions.SuccessFailureExclusive | include/csv/definitions.h:70-86 | success and failure always disagree, and a zeroed result is a failure |
| CsvDialect.GetDelimiter | src/csv_dialect.c:227-236 | NULL gives the undefined character; otherwise the stored delimiter |
| CsvDialect.GetDoubleQuote | src/csv_dialect.c:252-262 | NULL gives true; otherwise the stored flag |
| CsvDialect.GetEscapeChar | src/csv_dialect.c:277-286 | NULL gives the undefined character; otherwise the stored escape character |
| CsvDialect.GetLineTerminator | src/csv_dialect.c:301-311 | NULL gives the system default; otherwise the stored terminator |
| CsvDialect.GetQuoteChar | src/csv_dialect.c:326-335 | NULL gives the undefined character; otherwise the stored quote character |
| CsvDialect.GetQuoteStyle | src/csv_dialect.c:350-359 | NULL gives MINIMAL; otherwise the stored style |
| CsvDialect.GetSkipInitialSpace | src/csv_dialect.c:375-385 | NULL gives false; otherwise the stored flag |
| CsvDialect.View | src/csv_dialect.c:227-385 | what the getters report: the NULL fallbacks for NULL, the stored attributes otherwise |
| CsvDialect.SetDelimiter | src/csv_dialect.c:210-225 | fails on NULL or on the undefined character and then changes nothing; otherwise stores the delimiter, changes nothing else and succeeds |
| CsvDialect.SetDoubleQuote | src/csv_dialect.c:238-250 | fails only on NULL; otherwise the getter reports the new value and the other attributes are unchanged |
| CsvDialect.SetEscapeChar | src/csv_dialect.c:264-275 | fails only on NULL; otherwise any byte, the undefined one included, is stored and nothing else changes |
| CsvDialect.SetLineTerminator | src/csv_dialect.c:288-299 | fails only on NULL; otherwise stores the terminator and changes nothing else |
| CsvDialect.SetQuoteChar | src/csv_dialect.c:313-324 | fails only on NULL; otherwise stores the quote character and changes nothing else |
| CsvDialect.SetQuoteStyle | src/csv_dialect.c:337-348 | fails only on NULL; otherwise stores the style and changes nothing else |
| CsvDialect.SetSkipInitialSpace | src/csv_dialect.c:361-373 | fails only on NULL; otherwise stores the flag and changes nothing else |
| CsvDialect.Init | src/csv_dialect.c:27-80 | a new dialect holding ',' '"', no escape, doubling, MINIMAL, no skip, system terminator; it passes validation |
| CsvDialect.Copy | src/csv_dialect.c:82-143 | NULL gives NULL; otherwise a new dialect holding the defaults is returned, and the source dialect is overwritten with the defaults |
| CsvDialect.Close | src/csv_dialect.c:145-158 | the handle is NULL afterwards, whether or not it was before |
| CsvDialect.Validate | src/csv_dialect.c:160-208 | exactly one flag is set: dialect_null iff NULL; delimiter_error iff the delimiter is undefined; quoteescape_error iff the delimiter is defined, doubling is off and no escape is set; success iff the dialect is valid |
| CsvDialect.ValidateIgnoresStyleAndTerminator | src/csv_dialect.c:160-208 | two dialects that agree on delimiter, doubling and escape character get the same result, whatever their quote character, style and terminator; NONE without an escape passes when doubling is on |
| Encoding.BodyLength | src/csv_write.c:222-257 | the written body is the field plus one byte per prefixed character |
| Encoding.BodyVerbatim | src/csv_write.c:226-238 | a field none of whose bytes needs a prefix is written unchanged |
| Encoding.FramingByStyle | src/csv_write.c:168-204 | ALL frames every field in quotes, NONE never does, MINIMAL frames a field holding a special byte |
| Encoding.MinimalQuoting | src/csv_write.c:179-204 | under MINIMAL a field without delimiter, quote, escape, '\n' or '\r' is written verbatim, and the output starts with the quote character exactly when the field holds one of them |
| Encoding.FieldLength | src/csv_write.c:216-263 | an encoded field is its length, plus its prefixes, plus two quotes when quoted |
| Encoding.EncodeFromIsJoin | src/csv_write.c:206-213 | from the second field on, each encoded field is preceded by exactly one delimiter |
| Encoding.EncodeRecord | src/csv_write.c:165-264 | what one call writes: the encoded fields joined by the delimiter, with none before the first or after the last, and no line terminator |
| Encoding.JoinEndsWithLast | src/csv_write.c:206-213 | nothing follows the last field: no trailing delimiter |
| Encoding.JoinLength | src/csv_write.c:206-213 | n parts joined by a one-byte delimiter gain n - 1 bytes |
| Encoding.RecordLength | src/csv_write.c:165-264 | a record of n fields is the sum of its encoded fields plus n - 1 delimiters |
| Encoding.EncodeRecordAsWritten | src/csv_write.c:153-204 | the encoder with the carried `needs_quoting`: equal to the intended one under ALL or NONE, and for records of at most one field |
| Encoding.AsWrittenAgreesOutsideMinimal | src/csv_write.c:168-177 | under ALL or NONE, the encoder as written equals the intended one |
| Encoding.StickyQuotingCounterexample | src/csv_write.c:153-204 | with the defaults, the code as written writes the record [",", "a"] as `",","a"`, while the intended rule writes `",",a` |
| Encoding.EscapedAgreesWithoutEscape | src/csv_write.c:239-253 | the intended escape rule differs from the written one only on fields holding the escape character |
| Reading.UnquotedCharReadBack | src/csv_write.c:226-238 | outside quotes, a byte written alone or behind the escape character is read back as that byte |
| Reading.QuotedCharReadBack | src/csv_write.c:239-253 | inside quotes, a doubled or escaped quote, or any other byte but the escape character, is read back as that byte |
| Reading.UnquotedReadBack | src/csv_write.c:226-238 | an unquoted body reads back to its field and stops exactly at the following delimiter or end: no special byte is left bare |
| Reading.QuotedReadBack | src/csv_write.c:216-263 | a quoted body and its closing quote read back to the field when it holds no escape character; the first lone quote is the closing one |
| Reading.FieldReadBack | src/csv_write.c:168-263 | an encoded field followed by a delimiter or by nothing reads back to the field |
| Reading.FromReadBack | src/csv_write.c:165-264 | the fields from any index on, as written, read back to those fields |
| Reading.RecordReadBack | src/csv_write.c:146-268 | a record of at least one field reads back to itself, under the conditions listed above |
| Reading.EmptyRecordAmbiguous | src/csv_write.c:165-264 | under MINIMAL and NONE the empty record and the record of one empty field are both written as nothing |
| Reading.EscapeInQuotedFieldCounterexample | src/csv_write.c:239-253 | with doubling off and escape `\`, the field `a\` is written `"a\"`, which the reader finds unclosed |
| Reading.EscapedQuotedCharReadBack | src/csv_write.c:239-253 | under the intended rule every byte inside quotes, the escape character included, is read back |
| Reading.EscapedQuotedReadBack | src/csv_write.c:216-263 | under the intended rule every quoted body and its closing quote read back, with no restriction on the field |
| Reading.EscapedFieldReadBack | src/csv_write.c:168-263 | under the intended rule every encoded field reads back |
| Reading.NoneWithoutEscapeWritesUndefined | src/csv_write.c:226-238 | NONE without an escape character passes validation and writes byte 255 before a delimiter |
| CsvWrite.AdvancedInit | src/csv_write.c:85-112 | returns a new writer with a new dialect holding the defaults, no output and no closer; a caller's non-NULL dialect is overwritten with the defaults |
| CsvWrite.SetCloser | src/csv_write.c:114-123 | returns its argument; on a live writer installs the closer and changes nothing else |
| CsvWrite.Close | src/csv_write.c:125-141 | the closer runs iff the writer is live and has one; the dialect is closed; the handle is NULL afterwards |
| CsvWrite.NextRecord | src/csv_write.c:146-268 | a NULL writer fails and writes nothing; otherwise succeeds and appends exactly EncodeRecord of the dialect's settings, leaving the dialect and closer alone |
| CsvWrite.DecideQuoting | src/csv_write.c:168-204 | quote iff the style is ALL, or it is MINIMAL and the field holds a delimiter, quote, escape, '\n' or '\r' |
| CsvWrite.WriteChar | src/csv_write.c:448-474 | writechar: exactly the byte is appended to the output, and nothing else changes |
| CsvWrite.WriteField | src/csv_write.c:206-263 | appends the delimiter when not first, then the field in its quotes when quoted, with every byte prefixed as needed |
| CsvWrite.WriteBody | src/csv_write.c:222-257 | appends the encoding of every byte of the field, in order |
| CsvWrite.WriteFieldChar | src/csv_write.c:226-256 | unquoted: a special byte gets the escape character first; quoted: a quote byte gets the quote (doubling) or the escape character first; then the byte itself |
| CsvWrite.StrLen | src/csv_write.c:411 | the number of bytes before the first NUL: all earlier bytes are non-NUL and the next one, if any, is NUL |
| CsvWrite.FileWriter.constructor | src/csv_write.c:290-308 | every pointer NULL, every length and position zero, character type undefined |
| CsvWrite.SetRecord | src/csv_write.c:360-386 | with a missing stream, undefined character type, NULL record or zero length, nothing changes; otherwise the record becomes active with its length and position 0 |
| CsvWrite.SetNextField | src/csv_write.c:391-415 | NULL gives an error; end-of-record iff position + 1 reaches the record length, and then nothing changes; otherwise the field at the position becomes current, its length is its strlen, and the position advances |
| CsvWrite.GetNextChar | src/csv_write.c:423-441 | NULL gives an error; the character type becomes `char`; end-of-field iff position + 1 reaches the field length; otherwise the byte at the position is returned and the position advances |

## Left out

- File I/O is not modelled:
  - `csvwriter_init`, `csvfilewriter_filepath_init` and `csvfilewriter_filepath_closer` (fopen, fclose, free);
  - `csvwriter_writechar`, whose `putc` and `exit` on error are replaced by appending to `output`;
  - the unimplemented `csvwriter_file_init`.
- Installing a closer is modelled as a flag. Calling it is reported by `Close`'s `closerCalled` result, because the callback's effect on the stream is outside the model.
- Allocation failure and the failure branches it leads to are not modelled. This covers `malloc` returning NULL in init, copy, advanced_init and csvfilewriter_init. It also covers the setter failures inside `csvdialect_init` and `csvdialect_copy`, which cannot happen on a non-NULL dialect with the values used.
- Logging (`ZF_LOG*`) is not modelled, and neither is the width of `CSV_CHAR_TYPE`. Every character is one byte. The cursor only distinguishes "undefined" from `char`.
- No line terminator is written after a record, because `csvwriter_next_record` writes none. The dialect stores the terminator but does not interpret it.
- The library's reader (src/csv_read.c), the record and field types, and the other headers are not part of this model. Module `Reading` is a reference reader built from the reading rules documented in include/csv/dialect.h. It does not model src/csv_read.c, and it reads one record with no line terminator.
- CsvWrite.NextRecord: the C loop uses the return of `setnextfield` (a `CSV_STREAM_SIGNAL`) as the field length. The model uses the field's own length. The C loop also reads each field through the cursor twice, the MINIMAL scan and then the write, without rewinding. The model gives both passes the whole field, as the comments in the loop intend. So the model describes the evident intent rather than the cursor interaction; the cursor's own behaviour is modelled separately by `SetRecord`, `SetNextField` and `GetNextChar`.
- CsvWrite.NextRecord: `needs_quoting` is uninitialised before the first field under MINIMAL. The model takes it as false. The sticky value it carries to later fields is the finding below.
- CsvWrite.SetRecord: requires the declared length not to exceed the number of fields supplied. The C code would read past the array otherwise, which is undefined behaviour and not modelled.

## Findings

| source | as written | input that shows it | evidently intended | confidence | as-written member | corrected member |
|---|---|---|---|---|---|---|
| src/csv_write.c:153-204 | `needs_quoting` is declared once per record; the MINIMAL branch only ever sets it to true and never resets it, so once one field is quoted every later field is quoted | default dialect, record [",", "a"]: written `",","a"` | each field quoted only when it holds a delimiter, quote, escape, '\n' or '\r' (`",",a`) | not executed | Encoding.EncodeRecordAsWritten (Encoding.StickyQuotingCounterexample) | Encoding.EncodeRecord (Encoding.MinimalQuoting, used by CsvWrite.NextRecord) |
| src/csv_write.c:239-253 | inside a quoted field only the quote character is prefixed; the escape character is written bare | doubling off, escape `\`, MINIMAL, record with the one field `a\`: written `"a\"`, read as an escaped quote with no closing quote | the escape character escaped inside quotes as well, so every field reads back | not executed | Encoding.EncodeField (Reading.EscapeInQuotedFieldCounterexample) | Encoding.EncodeFieldEscaped (Reading.EscapedFieldReadBack) |

The writer model keeps the escape rule as written, so that `CsvWrite.WriteFieldChar` matches src/csv_write.c:239-253. `Reading.RecordReadBack` therefore requires that no quoted field holds the escape character. The corrected rule is proved readable without that restriction.
