# CSVBundle's CSV writer, modelled in Dafny

This project models `CSVCreator`, the service of the CSVBundle Symfony bundle that
turns a collection of records into CSV text and builds the HTTP headers for
downloading it.

- `parseDataToCSV` first replaces an empty (PHP-falsy) separator with `,` and an
  empty replacement with a space.
  - It rejects data that is neither an array nor a `Traversable` with
    `MalformedCSVObjectException`.
  - It rejects bad field lists and label lists with `MalformedCSVFieldsException`.
  - It then writes a header line, followed by one line per record.
  - Each cell is the record's value for a field. A missing or null value becomes the
    filler. A date goes through the date format, and a boolean becomes `1` or `0`.
    Every occurrence of the separator is replaced.
- `setHeaders` gives the `Content-Type` and `Content-Disposition` headers. When no
  file name is given, the current time names the file.

The model is split into these modules:

- `Text`: the PHP string functions the writer uses (`strstr`, `str_replace`,
  `implode`, integer-to-string). It also has a reader (`Split`, `ReadTable`), which
  is used to state what the output means.
- `PhpValues`: the PHP values that can reach the writer. A record is an array, an
  object with getters, or a scalar. A collection is an array, a `Traversable`, or
  something else.
- `CsvCreator`: the writer.
  - `CheckFields`, `WriteRow` and `ParseDataToCSV` are the source's loops, written
    as methods. Each is proved equal to a specification function (`FieldsCheck`,
    `RowText`, `CsvText`).
  - `SetHeaders` is a function.
- `CsvProperties`: what the writer promises, proved about the specification
  functions. This covers the exception conditions, the cell policy, defaulting,
  and the main property: reading the output back (split at newlines, then at the
  separator) gives the column titles and then each record's cells.
- `CsvExamples`: the scenarios of `Tests/Services/CSVCreatorTest.php`, stated over
  the model. Where the test compares whole output, the scenario holds for any
  strings of the shape the test uses.

The exceptions are modelled as `Failure` values of `CsvText` and `ParseDataToCSV`:
`MalformedObject` stands for `MalformedCSVObjectException`, and
`MalformedFields(problem)` stands for `MalformedCSVFieldsException`. `problem`
records which of the five `throw` sites in `checkFields` fired.

## Model

| member | source | states |
|---|---|---|
| Text.ContainsAt | Services/CSVCreator.php:101 | a text built around the needle contains it, so `strstr` finds the separator in such a field name |
| Text.StrStr | Services/CSVCreator.php:101 | `strstr` gives either nothing or a suffix of the haystack that begins with the needle |
| Text.StrStrTruthyIffContains | Services/CSVCreator.php:101 | used as a condition, `strstr(h, n)` is true exactly when `n` occurs in `h`, for every needle PHP reads as true |
| Text.StrStrZeroQuirk | Services/CSVCreator.php:101 | with the needle "0", `strstr("10", "0")` reads as false although "0" occurs; the separator is never "0", because line 40 has replaced it with "," |
| Text.Replace | Services/CSVCreator.php:53 | `str_replace` for one needle; its properties are Text.ReplaceAbsent, Text.ReplaceSplice, Text.ReplaceChars, Text.ReplaceRemovesChar and Text.ReplaceMayLeaveLongNeedle |
| Text.ReplaceAbsent | Services/CSVCreator.php:53 | `str_replace` leaves a value that does not hold the separator unchanged |
| Text.ReplaceSplice | Services/CSVCreator.php:53 | with a one-character separator, `str_replace` on a separator-free prefix, the separator and a rest gives the prefix, the replacement, and the rest replaced |
| Text.ReplaceChars | Services/CSVCreator.php:53 | every character of a replaced value comes from the value or from the replacement |
| Text.ReplaceRemovesChar | Services/CSVCreator.php:53 | for a one-character separator and a replacement without it, no separator is left in the cell |
| Text.ReplaceMayLeaveLongNeedle | Services/CSVCreator.php:53 | for a two-character separator this fails: replacing "ab" with "a" in "aabb" gives "aab", which still holds "ab" |
| Text.Join | Services/CSVCreator.php:55 | `implode`, also used at lines 139 and 141; its partner is Text.SplitJoin, and Text.JoinAvoids bounds its characters |
| Text.JoinAvoids | Services/CSVCreator.php:55 | a character found in neither the cells nor the separator is not in the `implode`d line |
| Text.SplitJoin | Services/CSVCreator.php:55 | splitting an `implode`d line at a one-character separator that no cell holds gives back the cells |
| Text.SplitTerminated | Services/CSVCreator.php:55 | splitting newline-terminated lines at newlines gives back the lines, then an empty rest |
| Text.NatToStringRoundTrip | Services/CSVCreator.php:69 | the decimal digits of a natural number read back as that number |
| Text.IntToStringRoundTrip | Services/CSVCreator.php:69 | the decimal text of an integer (the timestamp that names a file) reads back as that integer |
| CsvCreator.Defaulted | Services/CSVCreator.php:40-45 | `if (!$s) $s = $default`; its properties are CsvCreator.DefaultedNotFalsy and CsvProperties.DefaultsFirst |
| CsvCreator.EffectiveSeparator | Services/CSVCreator.php:38-42 | the separator after defaulting to ","; see CsvProperties.DefaultsFirst |
| CsvCreator.EffectiveReplacement | Services/CSVCreator.php:39-45 | the replacement after defaulting to " "; see CsvProperties.DefaultsFirst |
| CsvCreator.IsIterable | Services/CSVCreator.php:78-83 | `checkDataObject`'s test, an array or a `Traversable`; what it decides is CsvProperties.NonIterableRejected |
| CsvCreator.HeaderNames | Services/CSVCreator.php:138-141 | the labels when there are any, else the field names; see CsvProperties.EmptyCollectionIsHeader and CsvProperties.TitlesReadBack |
| CsvCreator.FirstRow | Services/CSVCreator.php:136-142 | `setFirstRow`; its line is read back by CsvProperties.TitlesReadBack |
| CsvCreator.DataValue | Services/CSVCreator.php:151-174 | `getDataValue`; its policy is CsvProperties.CellValuePolicy |
| CsvCreator.CsvText | Services/CSVCreator.php:29-58 | what `parseDataToCSV` returns or throws; CsvCreator.ParseDataToCSV is proved equal to it, and CsvProperties.CsvReadsBack, CsvProperties.NonIterableRejected and CsvProperties.FieldsRejected state what it means |
| PhpValues.Stringify | Services/CSVCreator.php:95 | `'' . $v` (also at lines 115 and 172): nothing for a date or an object without `__toString`; used by CsvProperties.FieldsCheckAccepts and CsvProperties.CellValuePolicy |
| PhpValues.Lookup | Services/CSVCreator.php:153-164 | the record's non-null value for a field, from the array or the getter; see CsvProperties.CellValuePolicy |
| CsvCreator.DefaultedNotFalsy | Services/CSVCreator.php:38-45 | after defaulting, the separator and the replacement are never falsy; defaulting is idempotent and keeps a truthy value |
| CsvCreator.FirstProblemNone | Services/CSVCreator.php:93-106 | when the first-failing-entry search finds nothing, every entry passes the check |
| CsvCreator.FirstProblemAt | Services/CSVCreator.php:93-106 | when every entry before `i` passes and entry `i` fails, the search reports entry `i`'s problem |
| CsvCreator.FieldsCheck | Services/CSVCreator.php:91-128 | when `checkFields` accepts, every field and every label has a string form |
| CsvCreator.CheckFields | Services/CSVCreator.php:91-128 | the two loops, with their early exits, report exactly the problem `FieldsCheck` specifies: the first field without a string form or holding the separator (without labels), then a label count mismatch, then the first bad label |
| CsvCreator.RowCells | Services/CSVCreator.php:50-54 | a record gives one cell per field |
| CsvCreator.RowTexts | Services/CSVCreator.php:49-56 | the collection gives one line per record |
| CsvCreator.WriteRow | Services/CSVCreator.php:50-55 | the inner loop builds the record's line: the cells, each with the separator replaced, joined by the separator |
| CsvCreator.ParseDataToCSV | Services/CSVCreator.php:29-58 | the result is exactly `CsvText`: the object error, or the first field error, or the header line followed by each record's line and a newline |
| CsvCreator.RowTextsSnoc | Services/CSVCreator.php:49-56 | the lines for the first `i + 1` records are the lines for the first `i` records plus record `i`'s line |
| CsvCreator.SetHeaders | Services/CSVCreator.php:66-76 | there are exactly two headers, and `Content-Type` is `text/csv` |
| CsvProperties.FieldsCheckAccepts | Services/CSVCreator.php:91-128 | for a truthy separator, the fields are accepted exactly when every field has a string form; without labels no field holds the separator; with labels they match the fields in number, each has a string form, and none holds the separator |
| CsvProperties.SeparatorInFieldNeedsLabels | Services/CSVCreator.php:101-105 | a field name holding the separator is refused without labels and accepted with valid labels |
| CsvProperties.LabelCountChecked | Services/CSVCreator.php:107-112 | a non-empty label list whose length differs from the field list's is always refused |
| CsvProperties.DefaultsFirst | Services/CSVCreator.php:38-45 | each option is defaulted on its own: a falsy separator becomes ",", a falsy replacement " ", a truthy one is kept, and the call gives the same result as a call with the values actually used |
| CsvProperties.NonIterableRejected | Services/CSVCreator.php:78-83 | the call fails with the object error exactly when the data is neither an array nor `Traversable` |
| CsvProperties.FieldsRejected | Services/CSVCreator.php:46-47 | on iterable data, the call fails exactly when the field rules are broken, and then always with the field error |
| CsvProperties.EmptyCollectionIsHeader | Services/CSVCreator.php:136-142 | an empty collection gives the header line alone: the labels when there are any, else the field names, joined by the separator |
| CsvProperties.CellValuePolicy | Services/CSVCreator.php:151-174 | a missing or null value, or a scalar record, gives the filler; `true`/`false` give "1"/"0"; a date gives the date format's text; a string is kept; an integer gives its decimal text; an object gives its `__toString` |
| CsvProperties.CellsFreeOfSeparator | Services/CSVCreator.php:53 | with a one-character separator and a replacement without it, no cell holds the separator |
| CsvProperties.CellsFreeOfNewline | Services/CSVCreator.php:53 | no cell holds a newline when neither the value nor the replacement does |
| CsvProperties.RowReadsBack | Services/CSVCreator.php:50-55 | a record's line splits back at the separator into that record's cells |
| CsvProperties.OutputLines | Services/CSVCreator.php:29-58 | accepted input gives the newline-terminated header line followed by the record lines |
| CsvProperties.ReadTerminated | Services/CSVCreator.php:55 | newline-terminated lines read back as those lines, each split at the separator |
| CsvProperties.TitlesReadBack | Services/CSVCreator.php:136-142 | the header line splits back into the column titles |
| CsvProperties.RecordLinesReadBack | Services/CSVCreator.php:49-56 | every record line is free of newlines and splits back into that record's cells |
| CsvProperties.TableReadBack | Services/CSVCreator.php:55 | newline-terminated lines that each split back into their pieces read back, as a whole text, as those pieces line by line |
| CsvProperties.LinesReadBack | Services/CSVCreator.php:48-56 | once the header line and every record line read back, the whole text reads back as the titles followed by each record's cells |
| CsvProperties.CsvReadsBack | Services/CSVCreator.php:29-58 | for a one-character separator that is not in the replacement, with no newlines in names or values, reading the output back gives the titles followed by each record's cells |
| CsvProperties.HeadersNameTheFile | Services/CSVCreator.php:66-76 | `Content-Type` is `text/csv`, and `Content-Disposition` names the given file, or the current time as a decimal number when no name is given |
| CsvProperties.HeadersDistinguishFiles | Services/CSVCreator.php:66-76 | two different truthy file names give different headers |
| CsvExamples.TwoCells | Services/CSVCreator.php:50-55 | a record's line under two fields is its two cells joined by the separator |
| CsvExamples.PlainCell | Services/CSVCreator.php:52-53 | a cell whose value does not hold the one-character separator is written as that value |
| CsvExamples.TwoStringCells | Tests/Services/CSVCreatorTest.php:35-42 | a record holding two separator-free strings is written as those strings joined by the separator |
| CsvExamples.TwoRecordLines | Tests/Services/CSVCreatorTest.php:158-169 | two such records give two such lines |
| CsvExamples.TwoTitles | Tests/Services/CSVCreatorTest.php:35-42 | two separator-free field names are accepted and joined by the separator |
| CsvExamples.TwoByTwo | Tests/Services/CSVCreatorTest.php:26-51 | two fields and two records, arrays or objects, with the default or another separator: the header line, then one line per record |
| CsvExamples.CustomIndexes | Tests/Services/CSVCreatorTest.php:90-98 | the whole output with two labels: the labels title the columns, while the records are still read by the field names, which may then hold the separator |
| CsvExamples.SeparatorReplaced | Tests/Services/CSVCreatorTest.php:53-65 | the separator inside a value becomes the replacement |
| CsvExamples.OneRecord | Tests/Services/CSVCreatorTest.php:53-88 | one record under two separator-free field names: the whole output is the header line, then the record's two cells joined by the separator |
| CsvExamples.SeparatorReplacement | Tests/Services/CSVCreatorTest.php:53-65 | the whole output of one array record whose first value holds "," (like "fir,st"), written with the replacement ";": the header line, then the value with ";" in place of ",", a comma, and the second value |
| CsvExamples.Filler | Tests/Services/CSVCreatorTest.php:67-78 | the whole output of one array record that lacks the second field: the header line, then the first value, a comma, and the filler |
| CsvExamples.DateRecord | Tests/Services/CSVCreatorTest.php:80-88 | the whole output of one array record of two dates: the header line, then the two dates as the format renders them, joined by a comma |
| CsvExamples.DateTimes | Tests/Services/CSVCreatorTest.php:80-88 | with a formatter that renders the two dates under `d/m/Y` as "01/01/2016" and "01/02/2016", the record line is exactly "01/01/2016,01/02/2016" |
| CsvExamples.NonTraversableData | Tests/Services/CSVCreatorTest.php:100-107 | a string as data fails with the object error |
| CsvExamples.NonStringFields | Tests/Services/CSVCreatorTest.php:109-116 | a `DateTime` field fails with the "no string form" field error |
| CsvExamples.FirstFieldHoldsSeparator | Services/CSVCreator.php:93-105 | without labels, a first field whose name holds the (truthy) separator is refused with the "contains the separator" error |
| CsvExamples.CommasInFields | Tests/Services/CSVCreatorTest.php:118-125 | two fields, the first holding ",", and no labels: the call fails with the "contains the separator" field error |
| CsvExamples.MalformedCustomIndexes | Tests/Services/CSVCreatorTest.php:127-135 | three labels for two fields, whatever the field names, fail with the label count error |
| CsvExamples.HeadersForMyFile | Tests/Services/CSVCreatorTest.php:137-145 | `setHeaders("my_file")` gives exactly the two expected headers |

## Left out

- Date formatting (`DateTime::format`) is a function parameter `formatDate`. The model does not interpret format strings.
- `time()` is a parameter `now` of `SetHeaders`.
- Getter dispatch (`'get' . ucwords($field)`, `method_exists`) is modelled as a map from field name to the getter's value. `ucwords` is therefore not modelled, and the getter is assumed to return the same value on the source's two calls.
- Records are looked up by the field's string form. PHP's casting of array keys (numeric strings to integers) is not modelled, and neither are field values that are not strings used as array keys.
- Values are null, booleans, integers, strings, dates and objects with or without `__toString`. Floats, nested arrays and resources are not modelled, and neither are PHP notices.
- A cell value with no string form throws an error the source does not catch. It is modelled as a precondition of `ParseDataToCSV` (`CellsRenderable`), required only when the data and fields are accepted.
- `null` for the optional string parameters is modelled as "". PHP treats both as falsy, and both give "" when turned into a string.
- CsvProperties.CsvReadsBack: holds only for a one-character separator. With a longer separator, `str_replace` can leave the separator in a cell (Text.ReplaceMayLeaveLongNeedle). The source does not quote cells, so a value holding a newline also breaks the line structure.
- CsvProperties.CellsFreeOfSeparator: stated only for a one-character separator, for the same reason.
- PHP strings are byte strings, and `strstr`, `str_replace` and `implode` work on bytes. The model works on sequences of characters. The two agree on valid UTF-8 text.
- A `\DateTime` is reduced to its timestamp (`Date(timestamp)`). Its timezone is not modelled, although it changes what `format` prints. No proved property depends on it, since the formatter is a parameter.
- The exception messages are not modelled; only which check failed is. Exception/MalformedCSVFieldsException.php is not part of this model.
- Test scenarios that compare whole output are stated for any field names and values of the test's shape, not for the test's literal strings. The `DateTime` test's dates are timestamps, and what `d/m/Y` renders them as is a requirement on the formatter parameter.
- Fields without a string form: an object without `__toString` (or a `DateTime`) gives `MalformedFields(FieldWithoutString)`, as the unit test at Tests/Services/CSVCreatorTest.php:109-116 expects. PHP's failed conversion is an engine error, not an `\Exception`, so the `catch (\Exception $e)` at lines 94-99 does not catch it by itself. It becomes the exception only where an error handler turns it into one, as PHPUnit's does. The model follows the test's expectation.
