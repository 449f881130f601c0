/**
 * What `parseDataToCSV` promises: when it fails and how, what the defaults do,
 * and that the text it writes reads back as the header and one row of cells
 * per record.
 */
module CsvProperties {
  import opened Wrappers
  import opened Text
  import opened PhpValues
  import opened CsvCreator

  // ------------------------------------------------------------ validation

  /** The rules `checkFields` enforces, stated without its loops: every field has
      a string form; without labels no field name contains the separator; with
      labels there are as many labels as fields, each with a string form free of
      the separator. */
  predicate FieldsValid(fields: seq<Value>, labels: seq<Value>, separator: string) {
    && AllStringy(fields)
    && (|labels| == 0 ==>
          forall i :: 0 <= i < |fields| ==> !Contains(Stringify(fields[i]).value, separator))
    && (|labels| > 0 ==>
          && |labels| == |fields|
          && AllStringy(labels)
          && forall i :: 0 <= i < |labels| ==> !Contains(Stringify(labels[i]).value, separator))
  }

  /** `checkFields` throws nothing exactly when the rules hold, for any separator
      PHP reads as true (the only kind it is ever called with). */
  lemma FieldsCheckAccepts(fields: seq<Value>, labels: seq<Value>, separator: string)
    requires !Falsy(separator)
    ensures FieldsCheck(fields, labels, separator).None? <==> FieldsValid(fields, labels, separator)
  {
    var labelled := |labels| > 0;
    var fieldCheck := v => FieldProblem(v, labelled, separator);
    var labelCheck := v => LabelProblem(v, separator);
    FirstProblemNone(fields, fieldCheck);
    FirstProblemNone(labels, labelCheck);
    forall i | 0 <= i < |fields| && Stringify(fields[i]).Some?
      ensures Truthy(StrStr(Stringify(fields[i]).value, separator)) <==> Contains(Stringify(fields[i]).value, separator)
    {
      StrStrTruthyIffContains(Stringify(fields[i]).value, separator);
    }
    forall i | 0 <= i < |labels| && Stringify(labels[i]).Some?
      ensures Truthy(StrStr(Stringify(labels[i]).value, separator)) <==> Contains(Stringify(labels[i]).value, separator)
    {
      StrStrTruthyIffContains(Stringify(labels[i]).value, separator);
    }
  }

  /** A field name holding the separator is refused when there are no labels, and
      accepted when a matching list of valid labels is given. */
  lemma SeparatorInFieldNeedsLabels(fields: seq<Value>, labels: seq<Value>, separator: string, k: nat)
    requires !Falsy(separator)
    requires AllStringy(fields) && k < |fields| && Contains(Stringify(fields[k]).value, separator)
    requires |labels| == |fields| && AllStringy(labels)
    requires forall i :: 0 <= i < |labels| ==> !Contains(Stringify(labels[i]).value, separator)
    ensures FieldsCheck(fields, [], separator).Some?
    ensures FieldsCheck(fields, labels, separator).None?
  {
    FieldsCheckAccepts(fields, [], separator);
    FieldsCheckAccepts(fields, labels, separator);
  }

  /** A non-empty label list of another length than the field list is always refused. */
  lemma LabelCountChecked(fields: seq<Value>, labels: seq<Value>, separator: string)
    requires |labels| > 0 && |labels| != |fields|
    ensures FieldsCheck(fields, labels, separator).Some?
  {
  }

  // ---------------------------------------------------------- whole output

  /** An empty separator or replacement (or "0") is replaced by its default
      before anything else, each on its own: the call behaves as if the values
      actually used had been passed. */
  lemma DefaultsFirst(
    data: Collection, fields: seq<Value>, fieldIndexes: seq<Value>,
    separator: string, separatorReplacement: string, dateFormat: string, filler: string,
    formatDate: DateFormatter)
    requires CellsRenderable(data, fields, fieldIndexes, separator)
    ensures CellsRenderable(data, fields, fieldIndexes, EffectiveSeparator(separator))
    ensures CsvText(data, fields, fieldIndexes, separator, separatorReplacement, dateFormat, filler, formatDate)
         == CsvText(data, fields, fieldIndexes, EffectiveSeparator(separator), EffectiveReplacement(separatorReplacement),
                    dateFormat, filler, formatDate)
    ensures Falsy(separator) ==> EffectiveSeparator(separator) == ","
    ensures !Falsy(separator) ==> EffectiveSeparator(separator) == separator
    ensures Falsy(separatorReplacement) ==> EffectiveReplacement(separatorReplacement) == " "
    ensures !Falsy(separatorReplacement) ==> EffectiveReplacement(separatorReplacement) == separatorReplacement
  {
    DefaultedNotFalsy(separator, DefaultSeparator);
    DefaultedNotFalsy(separatorReplacement, DefaultReplacement);
  }

  /** `MalformedCSVObjectException` is raised exactly when the data is neither an
      array nor a Traversable, whatever the other arguments are. */
  lemma NonIterableRejected(
    data: Collection, fields: seq<Value>, fieldIndexes: seq<Value>,
    separator: string, separatorReplacement: string, dateFormat: string, filler: string,
    formatDate: DateFormatter)
    requires CellsRenderable(data, fields, fieldIndexes, separator)
    ensures (CsvText(data, fields, fieldIndexes, separator, separatorReplacement, dateFormat, filler, formatDate)
             == Failure(MalformedObject)) <==> !IsIterable(data)
  {
    CsvTextCases(data, fields, fieldIndexes, separator, separatorReplacement, dateFormat, filler, formatDate);
  }

  /** On iterable data, the call fails exactly when the field rules are broken, and
      then with `MalformedCSVFieldsException`. */
  lemma FieldsRejected(
    data: Collection, fields: seq<Value>, fieldIndexes: seq<Value>,
    separator: string, separatorReplacement: string, dateFormat: string, filler: string,
    formatDate: DateFormatter)
    requires IsIterable(data)
    requires CellsRenderable(data, fields, fieldIndexes, separator)
    ensures var out := CsvText(data, fields, fieldIndexes, separator, separatorReplacement, dateFormat, filler, formatDate);
      && (out.Failure? <==> !FieldsValid(fields, fieldIndexes, EffectiveSeparator(separator)))
      && (out.Failure? ==> out.error.MalformedFields?)
  {
    DefaultedNotFalsy(separator, DefaultSeparator);
    FieldsCheckAccepts(fields, fieldIndexes, EffectiveSeparator(separator));
    CsvTextCases(data, fields, fieldIndexes, separator, separatorReplacement, dateFormat, filler, formatDate);
  }

  /** An empty collection gives the header line alone. */
  lemma EmptyCollectionIsHeader(
    data: Collection, fields: seq<Value>, fieldIndexes: seq<Value>,
    separator: string, separatorReplacement: string, dateFormat: string, filler: string,
    formatDate: DateFormatter)
    requires IsIterable(data) && data.rows == []
    requires FieldsValid(fields, fieldIndexes, EffectiveSeparator(separator))
    ensures CellsRenderable(data, fields, fieldIndexes, separator)
    ensures CsvText(data, fields, fieldIndexes, separator, separatorReplacement, dateFormat, filler, formatDate)
         == Success(Join(HeaderNames(Names(fields), Names(fieldIndexes)), EffectiveSeparator(separator)) + "\n")
  {
    DefaultedNotFalsy(separator, DefaultSeparator);
    FieldsCheckAccepts(fields, fieldIndexes, EffectiveSeparator(separator));
    CsvTextCases(data, fields, fieldIndexes, separator, separatorReplacement, dateFormat, filler, formatDate);
    var f := EffectiveFormat(separator, separatorReplacement, dateFormat, filler, formatDate);
    assert RowTexts(data.rows, Names(fields), f) == [];
    var header := FirstRow(Names(fields), Names(fieldIndexes), EffectiveSeparator(separator));
    assert header + Terminated([]) == header;
  }

  // ------------------------------------------------------------------ cells

  /** A cell is the filler whenever the record has no non-null value for the
      field (no key, no getter, or null); otherwise it is that value's string form:
      a date formatted with the date format, a boolean as "1" or "0", an integer
      in decimal, an object through its `__toString`. */
  lemma CellValuePolicy(row: Record, field: string, dateFormat: string, filler: string, formatDate: DateFormatter)
    requires CellRenderable(row, field)
    ensures row.ArrayRow? && (field !in row.entries || row.entries[field] == Null) ==>
      DataValue(row, field, dateFormat, filler, formatDate) == filler
    ensures row.ObjectRow? && (field !in row.getters || row.getters[field] == Null) ==>
      DataValue(row, field, dateFormat, filler, formatDate) == filler
    ensures row.ScalarRow? ==> DataValue(row, field, dateFormat, filler, formatDate) == filler
    ensures Lookup(row, field) == Some(Bool(true)) ==> DataValue(row, field, dateFormat, filler, formatDate) == "1"
    ensures Lookup(row, field) == Some(Bool(false)) ==> DataValue(row, field, dateFormat, filler, formatDate) == "0"
    ensures forall t :: Lookup(row, field) == Some(Date(t)) ==>
      DataValue(row, field, dateFormat, filler, formatDate) == formatDate(t, dateFormat)
    ensures forall s :: Lookup(row, field) == Some(Str(s)) ==>
      DataValue(row, field, dateFormat, filler, formatDate) == s
    ensures forall i :: Lookup(row, field) == Some(Int(i)) ==>
      DataValue(row, field, dateFormat, filler, formatDate) == IntToString(i)
    ensures forall t :: Lookup(row, field) == Some(Obj(Some(t))) ==>
      DataValue(row, field, dateFormat, filler, formatDate) == t
  {
  }

  /** With a one-character separator and a replacement that does not hold it, no
      written cell contains the separator. */
  lemma CellsFreeOfSeparator(row: Record, names: seq<string>, f: CellFormat)
    requires RowRenderable(row, names)
    requires |f.separator| == 1 && f.separator[0] !in f.replacement
    ensures forall j :: 0 <= j < |names| ==> f.separator[0] !in RowCells(row, names, f)[j]
  {
    forall j | 0 <= j < |names|
      ensures f.separator[0] !in RowCells(row, names, f)[j]
    {
      assert f.separator == [f.separator[0]];
      ReplaceRemovesChar(DataValue(row, names[j], f.dateFormat, f.filler, f.formatDate), f.separator[0], f.replacement);
    }
  }

  lemma CellsFreeOfNewline(row: Record, names: seq<string>, f: CellFormat)
    requires RowRenderable(row, names)
    requires '\n' !in f.replacement
    requires forall j :: 0 <= j < |names| ==> '\n' !in DataValue(row, names[j], f.dateFormat, f.filler, f.formatDate)
    ensures forall j :: 0 <= j < |names| ==> '\n' !in RowCells(row, names, f)[j]
  {
    forall j | 0 <= j < |names|
      ensures '\n' !in RowCells(row, names, f)[j]
    {
      var value := DataValue(row, names[j], f.dateFormat, f.filler, f.formatDate);
      if '\n' in Replace(value, f.separator, f.replacement) {
        ReplaceChars(value, f.separator, f.replacement, '\n');
      }
    }
  }

  /** A written line splits back at the separator into its cells. */
  lemma RowReadsBack(row: Record, names: seq<string>, f: CellFormat)
    requires RowRenderable(row, names) && |names| > 0
    requires |f.separator| == 1 && f.separator[0] !in f.replacement
    ensures Split(RowText(row, names, f), f.separator[0]) == RowCells(row, names, f)
  {
    CellsFreeOfSeparator(row, names, f);
    assert f.separator == [f.separator[0]];
    SplitJoin(RowCells(row, names, f), f.separator[0]);
  }

  // --------------------------------------------------------------- read back

  /** No value that reaches a cell contains a newline. */
  predicate NoNewlineInValues(rows: seq<Record>, names: seq<string>, f: CellFormat)
    requires RowsRenderable(rows, names)
  {
    forall i, j :: 0 <= i < |rows| && 0 <= j < |names| ==>
      '\n' !in DataValue(rows[i], names[j], f.dateFormat, f.filler, f.formatDate)
  }

  /** The written text is the header line followed by one line per record. */
  lemma OutputLines(
    data: Collection, fields: seq<Value>, fieldIndexes: seq<Value>,
    separator: string, separatorReplacement: string, dateFormat: string, filler: string,
    formatDate: DateFormatter)
    requires IsIterable(data)
    requires FieldsValid(fields, fieldIndexes, EffectiveSeparator(separator))
    requires RowsRenderable(data.rows, Names(fields))
    ensures CellsRenderable(data, fields, fieldIndexes, separator)
    ensures CsvText(data, fields, fieldIndexes, separator, separatorReplacement, dateFormat, filler, formatDate)
         == Success(Terminated(
              [Join(HeaderNames(Names(fields), Names(fieldIndexes)), EffectiveSeparator(separator))]
              + RowTexts(data.rows, Names(fields), EffectiveFormat(separator, separatorReplacement, dateFormat, filler, formatDate))))
  {
    var sep := EffectiveSeparator(separator);
    DefaultedNotFalsy(separator, DefaultSeparator);
    FieldsCheckAccepts(fields, fieldIndexes, sep);
    CsvTextCases(data, fields, fieldIndexes, separator, separatorReplacement, dateFormat, filler, formatDate);
    var lines := RowTexts(data.rows, Names(fields), EffectiveFormat(separator, separatorReplacement, dateFormat, filler, formatDate));
    var header := Join(HeaderNames(Names(fields), Names(fieldIndexes)), sep);
    assert ([header] + lines)[1..] == lines;
  }

  /** Newline-terminated lines read back as those lines, each split at `c`. */
  lemma ReadTerminated(lines: seq<string>, c: char)
    requires forall i :: 0 <= i < |lines| ==> '\n' !in lines[i]
    ensures ReadTable(Terminated(lines), c)
         == Some(seq(|lines|, i requires 0 <= i < |lines| => Split(lines[i], c)))
  {
    SplitTerminated(lines);
    var pieces := Split(Terminated(lines), '\n');
    assert pieces[|pieces| - 1] == "";
    assert seq(|pieces| - 1, i requires 0 <= i < |pieces| - 1 => Split(pieces[i], c))
        == seq(|lines|, i requires 0 <= i < |lines| => Split(lines[i], c));
  }

  /** The header line reads back as the column titles. */
  lemma TitlesReadBack(fields: seq<Value>, fieldIndexes: seq<Value>, sep: string)
    requires FieldsValid(fields, fieldIndexes, sep)
    requires |fields| > 0 && |sep| == 1 && sep != "\n"
    requires forall i :: 0 <= i < |fields| ==> '\n' !in Names(fields)[i]
    requires forall i :: 0 <= i < |fieldIndexes| ==> '\n' !in Names(fieldIndexes)[i]
    ensures var titles := HeaderNames(Names(fields), Names(fieldIndexes));
      '\n' !in Join(titles, sep) && Split(Join(titles, sep), sep[0]) == titles
  {
    var c := sep[0];
    assert sep == [c];
    var titles := HeaderNames(Names(fields), Names(fieldIndexes));
    forall k | 0 <= k < |titles|
      ensures c !in titles[k] && '\n' !in titles[k]
    {
      ContainsChar(titles[k], c);
    }
    JoinAvoids(titles, sep, '\n');
    SplitJoin(titles, c);
  }

  /** Each record line reads back as that record's cells. */
  lemma RecordLinesReadBack(rows: seq<Record>, names: seq<string>, f: CellFormat)
    requires RowsRenderable(rows, names) && |names| > 0
    requires |f.separator| == 1 && f.separator != "\n"
    requires f.separator[0] !in f.replacement && '\n' !in f.replacement
    requires NoNewlineInValues(rows, names, f)
    ensures forall i :: 0 <= i < |rows| ==>
      '\n' !in RowText(rows[i], names, f) && Split(RowText(rows[i], names, f), f.separator[0]) == RowCells(rows[i], names, f)
  {
    forall i | 0 <= i < |rows|
      ensures '\n' !in RowText(rows[i], names, f)
      ensures Split(RowText(rows[i], names, f), f.separator[0]) == RowCells(rows[i], names, f)
    {
      assert f.separator == [f.separator[0]];
      CellsFreeOfNewline(rows[i], names, f);
      JoinAvoids(RowCells(rows[i], names, f), f.separator, '\n');
      RowReadsBack(rows[i], names, f);
    }
  }

  /** A header line and record lines that each read back, terminated, read back
      together as the header's pieces followed by each record line's pieces. */
  lemma TableReadBack(header: string, titles: seq<string>, texts: seq<string>, cells: seq<seq<string>>, c: char)
    requires '\n' !in header && Split(header, c) == titles
    requires |texts| == |cells|
    requires forall i :: 0 <= i < |texts| ==> '\n' !in texts[i] && Split(texts[i], c) == cells[i]
    ensures ReadTable(Terminated([header] + texts), c) == Some([titles] + cells)
  {
    var lines := [header] + texts;
    ReadTerminated(lines, c);
    assert seq(|lines|, i requires 0 <= i < |lines| => Split(lines[i], c)) == [titles] + cells;
  }

  /** The header line and the record lines, once each is known to read back,
      read back together as the titles followed by each record's cells. */
  lemma LinesReadBack(titles: seq<string>, rows: seq<Record>, names: seq<string>, f: CellFormat)
    requires RowsRenderable(rows, names) && |f.separator| == 1
    requires '\n' !in Join(titles, f.separator) && Split(Join(titles, f.separator), f.separator[0]) == titles
    requires forall i :: 0 <= i < |rows| ==>
      '\n' !in RowText(rows[i], names, f) && Split(RowText(rows[i], names, f), f.separator[0]) == RowCells(rows[i], names, f)
    ensures ReadTable(Terminated([Join(titles, f.separator)] + RowTexts(rows, names, f)), f.separator[0])
         == Some([titles] + seq(|rows|, i requires 0 <= i < |rows| => RowCells(rows[i], names, f)))
  {
    var texts := RowTexts(rows, names, f);
    var cells := seq(|rows|, i requires 0 <= i < |rows| => RowCells(rows[i], names, f));
    TableReadBack(Join(titles, f.separator), titles, texts, cells, f.separator[0]);
  }

  /** Reading the written text back, with newline as the row end and the separator
      as the cell boundary, gives the column titles and then, for each record in
      order, its cells in field order: one per field, the separator in values
      replaced. This holds for a one-character separator whose replacement does not
      contain it, with at least one field and no newline inside titles or values. */
  lemma {:induction false} CsvReadsBack(
    data: Collection, fields: seq<Value>, fieldIndexes: seq<Value>,
    separator: string, separatorReplacement: string, dateFormat: string, filler: string,
    formatDate: DateFormatter)
    requires IsIterable(data)
    requires FieldsValid(fields, fieldIndexes, EffectiveSeparator(separator))
    requires RowsRenderable(data.rows, Names(fields))
    requires |fields| > 0
    requires |EffectiveSeparator(separator)| == 1 && EffectiveSeparator(separator) != "\n"
    requires EffectiveSeparator(separator)[0] !in EffectiveReplacement(separatorReplacement)
    requires '\n' !in EffectiveReplacement(separatorReplacement)
    requires forall i :: 0 <= i < |fields| ==> '\n' !in Names(fields)[i]
    requires forall i :: 0 <= i < |fieldIndexes| ==> '\n' !in Names(fieldIndexes)[i]
    requires NoNewlineInValues(data.rows, Names(fields), EffectiveFormat(separator, separatorReplacement, dateFormat, filler, formatDate))
    ensures CellsRenderable(data, fields, fieldIndexes, separator)
    ensures var out := CsvText(data, fields, fieldIndexes, separator, separatorReplacement, dateFormat, filler, formatDate);
      var f := EffectiveFormat(separator, separatorReplacement, dateFormat, filler, formatDate);
      && out.Success?
      && ReadTable(out.value, f.separator[0])
         == Some([HeaderNames(Names(fields), Names(fieldIndexes))]
                 + seq(|data.rows|, i requires 0 <= i < |data.rows| => RowCells(data.rows[i], Names(fields), f)))
  {
    var f := EffectiveFormat(separator, separatorReplacement, dateFormat, filler, formatDate);
    var c := f.separator[0];
    var rows := data.rows;
    var names := Names(fields);
    var titles := HeaderNames(names, Names(fieldIndexes));
    OutputLines(data, fields, fieldIndexes, separator, separatorReplacement, dateFormat, filler, formatDate);
    TitlesReadBack(fields, fieldIndexes, f.separator);
    RecordLinesReadBack(rows, names, f);
    LinesReadBack(titles, rows, names, f);
  }

  // ------------------------------------------------------------ setHeaders

  const DispositionPrefix: string := "attachment; filename=\""
  const DispositionSuffix: string := ".csv\""

  /** The file name a `Content-Disposition` value announces, if it has the form
      `setHeaders` writes. */
  function DispositionFilename(disposition: string): Option<string> {
    if |disposition| >= |DispositionPrefix| + |DispositionSuffix|
       && disposition[..|DispositionPrefix|] == DispositionPrefix
       && disposition[|disposition| - |DispositionSuffix|..] == DispositionSuffix
    then Some(disposition[|DispositionPrefix|..|disposition| - |DispositionSuffix|])
    else None
  }

  /** The download headers announce a CSV file under the given name, or, when the
      name is falsy, under the current time; either name can be read back. */
  lemma HeadersNameTheFile(filename: string, now: int)
    ensures SetHeaders(filename, now)["Content-Type"] == "text/csv"
    ensures !Falsy(filename) ==>
      DispositionFilename(SetHeaders(filename, now)["Content-Disposition"]) == Some(filename)
    ensures Falsy(filename) ==>
      DispositionFilename(SetHeaders(filename, now)["Content-Disposition"]) == Some(IntToString(now))
      && ParseInt(IntToString(now)) == now
  {
    var name := if Falsy(filename) then IntToString(now) else filename;
    var d := DispositionPrefix + name + DispositionSuffix;
    assert SetHeaders(filename, now)["Content-Disposition"] == d;
    assert d[..|DispositionPrefix|] == DispositionPrefix;
    assert d[|d| - |DispositionSuffix|..] == DispositionSuffix;
    assert d[|DispositionPrefix|..|d| - |DispositionSuffix|] == name;
    IntToStringRoundTrip(now);
  }

  /** Two different (truthy) file names never give the same download headers. */
  lemma HeadersDistinguishFiles(a: string, b: string, now: int)
    requires !Falsy(a) && !Falsy(b)
    requires SetHeaders(a, now) == SetHeaders(b, now)
    ensures a == b
  {
    HeadersNameTheFile(a, now);
    HeadersNameTheFile(b, now);
  }
}
