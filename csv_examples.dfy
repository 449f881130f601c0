/**
 * The scenarios of the writer's unit tests (Tests/Services/CSVCreatorTest.php),
 * stated over the model. Scenarios whose output is a whole table are stated for
 * any strings of the shape the test uses.
 */
module CsvExamples {
  import opened Wrappers
  import opened Text
  import opened PhpValues
  import opened CsvCreator
  import opened CsvProperties

  /** The line of a record under two fields: its two cells joined by the separator. */
  lemma TwoCells(row: Record, h1: string, h2: string, f: CellFormat)
    requires CellRenderable(row, h1) && CellRenderable(row, h2)
    ensures RowRenderable(row, [h1, h2])
    ensures RowText(row, [h1, h2], f) == Cell(row, h1, f) + f.separator + Cell(row, h2, f)
  {
    assert [h1, h2][0] == h1 && [h1, h2][1] == h2;
    assert RowCells(row, [h1, h2], f) == [Cell(row, h1, f), Cell(row, h2, f)];
    assert [Cell(row, h1, f), Cell(row, h2, f)][1..] == [Cell(row, h2, f)];
    assert Join([Cell(row, h2, f)], f.separator) == Cell(row, h2, f);
  }

  /** A cell whose value is free of the one-character separator is that value. */
  lemma PlainCell(row: Record, h: string, a: string, f: CellFormat)
    requires CellRenderable(row, h) && DataValue(row, h, f.dateFormat, f.filler, f.formatDate) == a
    requires |f.separator| == 1 && f.separator[0] !in a
    ensures Cell(row, h, f) == a
  {
    assert f.separator == [f.separator[0]];
    ContainsChar(a, f.separator[0]);
    ReplaceAbsent(a, f.separator, f.replacement);
  }

  /** A record whose two fields hold strings free of the separator is written as
      those strings joined by the separator. */
  lemma TwoStringCells(row: Record, h1: string, h2: string, a: string, b: string, f: CellFormat)
    requires Lookup(row, h1) == Some(Str(a)) && Lookup(row, h2) == Some(Str(b))
    requires |f.separator| == 1 && f.separator[0] !in a && f.separator[0] !in b
    ensures RowRenderable(row, [h1, h2])
    ensures RowText(row, [h1, h2], f) == a + f.separator + b
  {
    PlainCell(row, h1, a, f);
    PlainCell(row, h2, b, f);
    TwoCells(row, h1, h2, f);
  }

  /** Two records holding separator-free strings give two lines. */
  lemma TwoRecordLines(data: Collection, h1: string, h2: string, a: string, b: string, c: string, d: string,
                       f: CellFormat)
    requires IsIterable(data) && |data.rows| == 2
    requires |f.separator| == 1
    requires var t := f.separator[0]; t !in a && t !in b && t !in c && t !in d
    requires Lookup(data.rows[0], h1) == Some(Str(a)) && Lookup(data.rows[0], h2) == Some(Str(b))
    requires Lookup(data.rows[1], h1) == Some(Str(c)) && Lookup(data.rows[1], h2) == Some(Str(d))
    ensures RowsRenderable(data.rows, [h1, h2])
    ensures RowTexts(data.rows, [h1, h2], f) == [a + f.separator + b, c + f.separator + d]
  {
    TwoStringCells(data.rows[0], h1, h2, a, b, f);
    TwoStringCells(data.rows[1], h1, h2, c, d, f);
  }

  /** Two column titles free of the separator, joined by it. */
  lemma TwoTitles(t1: string, t2: string, s: string)
    requires |s| == 1 && s[0] !in t1 && s[0] !in t2
    ensures FieldsValid([Str(t1), Str(t2)], [], s)
    ensures Names([Str(t1), Str(t2)]) == [t1, t2]
    ensures Join([t1, t2], s) == t1 + s + t2
  {
    assert s == [s[0]];
    ContainsChar(t1, s[0]);
    ContainsChar(t2, s[0]);
    assert [t1, t2][1..] == [t2];
  }

  /** testCSVWithArray, testCSVWithObject, testCSVWithAlternateSeparator: two
      fields, two records (arrays or objects) holding strings, the default or
      another one-character separator; the header line, then one line per record. */
  lemma TwoByTwo(data: Collection, h1: string, h2: string, a: string, b: string, c: string, d: string,
                 separator: string, formatDate: DateFormatter)
    requires IsIterable(data) && |data.rows| == 2
    requires var s := EffectiveSeparator(separator);
      |s| == 1 && s[0] !in h1 && s[0] !in h2 && s[0] !in a && s[0] !in b && s[0] !in c && s[0] !in d
    requires Lookup(data.rows[0], h1) == Some(Str(a)) && Lookup(data.rows[0], h2) == Some(Str(b))
    requires Lookup(data.rows[1], h1) == Some(Str(c)) && Lookup(data.rows[1], h2) == Some(Str(d))
    ensures CellsRenderable(data, [Str(h1), Str(h2)], [], separator)
    ensures var s := EffectiveSeparator(separator);
      CsvText(data, [Str(h1), Str(h2)], [], separator, "", "", "", formatDate)
      == Success(Terminated([h1 + s + h2, a + s + b, c + s + d]))
  {
    var fields := [Str(h1), Str(h2)];
    var f := EffectiveFormat(separator, "", "", "", formatDate);
    TwoTitles(h1, h2, f.separator);
    TwoRecordLines(data, h1, h2, a, b, c, d, f);
    OutputLines(data, fields, [], separator, "", "", "", formatDate);
  }

  /** testCSVWithCustomIndexes: the labels title the columns in place of the
      field names, which are still the keys the records are read by (and, with
      labels, may hold the separator). */
  lemma CustomIndexes(data: Collection, h1: string, h2: string, l1: string, l2: string,
                      a: string, b: string, c: string, d: string, formatDate: DateFormatter)
    requires IsIterable(data) && |data.rows| == 2
    requires ',' !in l1 && ',' !in l2
    requires ',' !in a && ',' !in b && ',' !in c && ',' !in d
    requires Lookup(data.rows[0], h1) == Some(Str(a)) && Lookup(data.rows[0], h2) == Some(Str(b))
    requires Lookup(data.rows[1], h1) == Some(Str(c)) && Lookup(data.rows[1], h2) == Some(Str(d))
    ensures CellsRenderable(data, [Str(h1), Str(h2)], [Str(l1), Str(l2)], "")
    ensures CsvText(data, [Str(h1), Str(h2)], [Str(l1), Str(l2)], "", "", "", "", formatDate)
         == Success(Terminated([l1 + "," + l2, a + "," + b, c + "," + d]))
  {
    var fields := [Str(h1), Str(h2)];
    var labels := [Str(l1), Str(l2)];
    var f := EffectiveFormat("", "", "", "", formatDate);
    TwoTitles(l1, l2, ",");
    assert Names(fields) == [h1, h2];
    assert FieldsValid(fields, labels, ",");
    TwoRecordLines(data, h1, h2, a, b, c, d, f);
    OutputLines(data, fields, labels, "", "", "", "", formatDate);
  }

  /** testCSVWithSeparatorReplacement: a separator inside a value becomes the
      replacement (";" when given, a space by default). */
  lemma SeparatorReplaced(x: string, y: string, replacement: string)
    requires ',' !in x && ',' !in y
    ensures Replace(x + "," + y, ",", replacement) == x + replacement + y
  {
    ContainsChar(x, ',');
    ContainsChar(y, ',');
    ReplaceAbsent(y, ",", replacement);
    ReplaceSplice(x, ",", y, replacement);
  }

  /** One record under two fields: the header line, then the record's two cells. */
  lemma OneRecord(data: Collection, h1: string, h2: string,
                  separator: string, separatorReplacement: string, dateFormat: string, filler: string,
                  formatDate: DateFormatter)
    requires IsIterable(data) && |data.rows| == 1
    requires var s := EffectiveSeparator(separator); |s| == 1 && s[0] !in h1 && s[0] !in h2
    requires CellRenderable(data.rows[0], h1) && CellRenderable(data.rows[0], h2)
    ensures CellsRenderable(data, [Str(h1), Str(h2)], [], separator)
    ensures var f := EffectiveFormat(separator, separatorReplacement, dateFormat, filler, formatDate);
      CsvText(data, [Str(h1), Str(h2)], [], separator, separatorReplacement, dateFormat, filler, formatDate)
      == Success(Terminated([h1 + f.separator + h2,
                             Cell(data.rows[0], h1, f) + f.separator + Cell(data.rows[0], h2, f)]))
  {
    var f := EffectiveFormat(separator, separatorReplacement, dateFormat, filler, formatDate);
    TwoTitles(h1, h2, f.separator);
    TwoCells(data.rows[0], h1, h2, f);
    assert RowsRenderable(data.rows, [h1, h2]);
    assert RowTexts(data.rows, [h1, h2], f) == [RowText(data.rows[0], [h1, h2], f)];
    OutputLines(data, [Str(h1), Str(h2)], [], separator, separatorReplacement, dateFormat, filler, formatDate);
  }

  /** testCSVWithSeparatorReplacement: the separator "," inside a value is written
      as the replacement ";". */
  lemma SeparatorReplacement(h1: string, h2: string, x: string, y: string, b: string, formatDate: DateFormatter)
    requires h1 != h2
    requires ',' !in h1 && ',' !in h2 && ',' !in x && ',' !in y && ',' !in b
    ensures var data := ArrayOf([ArrayRow(map[h1 := Str(x + "," + y), h2 := Str(b)])]);
      && CellsRenderable(data, [Str(h1), Str(h2)], [], ",")
      && CsvText(data, [Str(h1), Str(h2)], [], ",", ";", "", "", formatDate)
         == Success(Terminated([h1 + "," + h2, x + ";" + y + "," + b]))
  {
    var row := ArrayRow(map[h1 := Str(x + "," + y), h2 := Str(b)]);
    var f := EffectiveFormat(",", ";", "", "", formatDate);
    SeparatorReplaced(x, y, ";");
    assert Cell(row, h1, f) == x + ";" + y;
    PlainCell(row, h2, b, f);
    OneRecord(ArrayOf([row]), h1, h2, ",", ";", "", "", formatDate);
  }

  /** testCSVWithFiller: the field the record lacks is written as the filler. */
  lemma Filler(h1: string, h2: string, a: string, filler: string, formatDate: DateFormatter)
    requires h1 != h2
    requires ',' !in h1 && ',' !in h2 && ',' !in a && ',' !in filler
    ensures var data := ArrayOf([ArrayRow(map[h1 := Str(a)])]);
      && CellsRenderable(data, [Str(h1), Str(h2)], [], "")
      && CsvText(data, [Str(h1), Str(h2)], [], "", "", "", filler, formatDate)
         == Success(Terminated([h1 + "," + h2, a + "," + filler]))
  {
    var row := ArrayRow(map[h1 := Str(a)]);
    var f := EffectiveFormat("", "", "", filler, formatDate);
    PlainCell(row, h1, a, f);
    PlainCell(row, h2, filler, f);
    OneRecord(ArrayOf([row]), h1, h2, "", "", "", filler, formatDate);
  }

  /** A record of two dates is written as the two dates rendered by the format. */
  lemma DateRecord(h1: string, h2: string, t1: int, t2: int, d1: string, d2: string,
                   dateFormat: string, formatDate: DateFormatter)
    requires h1 != h2 && ',' !in h1 && ',' !in h2 && ',' !in d1 && ',' !in d2
    requires formatDate(t1, dateFormat) == d1 && formatDate(t2, dateFormat) == d2
    ensures var data := ArrayOf([ArrayRow(map[h1 := Date(t1), h2 := Date(t2)])]);
      && CellsRenderable(data, [Str(h1), Str(h2)], [], "")
      && CsvText(data, [Str(h1), Str(h2)], [], "", "", dateFormat, "", formatDate)
         == Success(Terminated([h1 + "," + h2, d1 + "," + d2]))
  {
    var row := ArrayRow(map[h1 := Date(t1), h2 := Date(t2)]);
    var f := EffectiveFormat("", "", dateFormat, "", formatDate);
    PlainCell(row, h1, d1, f);
    PlainCell(row, h2, d2, f);
    OneRecord(ArrayOf([row]), h1, h2, "", "", dateFormat, "", formatDate);
  }

  /** testCSVWithDateTime: both dates are written as the format `d/m/Y` renders them. */
  lemma DateTimes(h1: string, h2: string, t1: int, t2: int, formatDate: DateFormatter)
    requires h1 != h2 && ',' !in h1 && ',' !in h2
    requires formatDate(t1, "d/m/Y") == "01/01/2016" && formatDate(t2, "d/m/Y") == "01/02/2016"
    ensures var data := ArrayOf([ArrayRow(map[h1 := Date(t1), h2 := Date(t2)])]);
      && CellsRenderable(data, [Str(h1), Str(h2)], [], "")
      && CsvText(data, [Str(h1), Str(h2)], [], "", "", "d/m/Y", "", formatDate)
         == Success(Terminated([h1 + "," + h2, "01/01/2016" + "," + "01/02/2016"]))
  {
    DateRecord(h1, h2, t1, t2, "01/01/2016", "01/02/2016", "d/m/Y", formatDate);
  }

  /** testCSVWithNonTraversableData */
  lemma NonTraversableData(fields: seq<Value>, formatDate: DateFormatter)
    ensures CellsRenderable(NotIterable(Str("some string")), fields, [], "")
    ensures CsvText(NotIterable(Str("some string")), fields, [], "", "", "", "", formatDate) == Failure(MalformedObject)
  {
  }

  /** testCSVWithNonStringFields: a `\DateTime` has no string form. */
  lemma NonStringFields(data: Collection, t: int, formatDate: DateFormatter)
    requires IsIterable(data)
    ensures CellsRenderable(data, [Date(t)], [], "")
    ensures CsvText(data, [Date(t)], [], "", "", "", "", formatDate) == Failure(MalformedFields(FieldWithoutString))
  {
    var check := v => FieldProblem(v, false, ",");
    assert check(Date(t)) == Some(FieldWithoutString);
    assert FirstProblem([Date(t)], check) == Some(FieldWithoutString);
  }

  /** Without labels, a first field whose name holds the separator is refused. */
  lemma FirstFieldHoldsSeparator(fields: seq<Value>, name: string, separator: string)
    requires !Falsy(separator) && |fields| > 0
    requires fields[0] == Str(name) && Contains(name, separator)
    ensures FieldsCheck(fields, [], separator) == Some(FieldContainsSeparator)
  {
    StrStrTruthyIffContains(name, separator);
    var check := v => FieldProblem(v, false, separator);
    assert check(fields[0]) == Some(FieldContainsSeparator);
  }

  /** testCSVWithCommasInFields */
  lemma CommasInFields(data: Collection, x: string, y: string, h2: string, formatDate: DateFormatter)
    requires IsIterable(data)
    ensures CellsRenderable(data, [Str(x + "," + y), Str(h2)], [], "")
    ensures CsvText(data, [Str(x + "," + y), Str(h2)], [], "", "", "", "", formatDate)
         == Failure(MalformedFields(FieldContainsSeparator))
  {
    ContainsAt(x, ",", y);
    FirstFieldHoldsSeparator([Str(x + "," + y), Str(h2)], x + "," + y, ",");
  }

  /** testCSVWithMalformedCustomIndexes: three labels for two fields. Field names
      holding the separator pass the field loop here, since labels are given. */
  lemma MalformedCustomIndexes(data: Collection, h1: string, h2: string, l1: string, l2: string, l3: string, formatDate: DateFormatter)
    requires IsIterable(data)
    ensures CellsRenderable(data, [Str(h1), Str(h2)], [Str(l1), Str(l2), Str(l3)], "")
    ensures CsvText(data, [Str(h1), Str(h2)], [Str(l1), Str(l2), Str(l3)], "", "", "", "", formatDate)
         == Failure(MalformedFields(LabelCountMismatch))
  {
    FirstProblemNone([Str(h1), Str(h2)], v => FieldProblem(v, true, ","));
  }

  /** testSetHeaders */
  lemma HeadersForMyFile(now: int)
    ensures SetHeaders("my_file", now)
         == map["Content-Type" := "text/csv", "Content-Disposition" := "attachment; filename=\"my_file.csv\""]
  {
    assert !Falsy("my_file");
    assert "attachment; filename=\"" + "my_file" + ".csv\"" == "attachment; filename=\"my_file.csv\"";
  }
}
