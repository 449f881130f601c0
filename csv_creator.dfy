/**
 * The CSV writer: `parseDataToCSV` with its helpers `checkDataObject`,
 * `checkFields`, `setFirstRow` and `getDataValue`, and `setHeaders`.
 */
module CsvCreator {
  import opened Wrappers
  import opened Text
  import opened PhpValues

  const DefaultSeparator: string := ","
  const DefaultReplacement: string := " "

  /** Why `checkFields` throws `MalformedCSVFieldsException`. */
  datatype FieldsProblem =
    | FieldWithoutString
    | FieldContainsSeparator
    | LabelCountMismatch
    | LabelWithoutString
    | LabelContainsSeparator

  datatype CsvError =
    | MalformedObject                        // MalformedCSVObjectException
    | MalformedFields(problem: FieldsProblem) // MalformedCSVFieldsException

  /** `\DateTime::format`: a timestamp and a format string to text. */
  type DateFormatter = (int, string) -> string

  /** The options a cell is written with, once the defaults are applied. */
  datatype CellFormat = CellFormat(
    separator: string,
    replacement: string,
    dateFormat: string,
    filler: string,
    formatDate: DateFormatter)

  /** The cell options `parseDataToCSV` works with once the defaults are applied. */
  function EffectiveFormat(
    separator: string, separatorReplacement: string, dateFormat: string, filler: string,
    formatDate: DateFormatter): CellFormat
  {
    CellFormat(EffectiveSeparator(separator), EffectiveReplacement(separatorReplacement), dateFormat, filler, formatDate)
  }

  /** `if (!$s) { $s = $default; }` */
  function Defaulted(s: string, default: string): string {
    if Falsy(s) then default else s
  }

  function EffectiveSeparator(separator: string): string {
    Defaulted(separator, DefaultSeparator)
  }

  function EffectiveReplacement(replacement: string): string {
    Defaulted(replacement, DefaultReplacement)
  }

  /** The separator actually used is never one PHP reads as false. */
  lemma DefaultedNotFalsy(s: string, default: string)
    requires !Falsy(default)
    ensures !Falsy(Defaulted(s, default))
    ensures Defaulted(Defaulted(s, default), default) == Defaulted(s, default)
    ensures !Falsy(s) ==> Defaulted(s, default) == s
  {
  }

  // ------------------------------------------------------- checkDataObject

  /** `checkDataObject`: accepts an array or a `\Traversable`. */
  predicate IsIterable(data: Collection) {
    data.ArrayOf? || data.TraversableOf?
  }

  // ----------------------------------------------------------- checkFields

  /** What `checkFields` objects to in one entry of `$fields`; `labelled` says
      whether `$fieldIndexes` is non-empty. */
  function FieldProblem(field: Value, labelled: bool, separator: string): Option<FieldsProblem> {
    match Stringify(field)
    case None => Some(FieldWithoutString)
    case Some(name) =>
      if Truthy(StrStr(name, separator)) && !labelled then Some(FieldContainsSeparator) else None
  }

  /** What `checkFields` objects to in one entry of `$fieldIndexes`. */
  function LabelProblem(fieldIndex: Value, separator: string): Option<FieldsProblem> {
    match Stringify(fieldIndex)
    case None => Some(LabelWithoutString)
    case Some(name) =>
      if Truthy(StrStr(name, separator)) then Some(LabelContainsSeparator) else None
  }

  /** The problem of the first entry that has one, in list order. */
  function FirstProblem(xs: seq<Value>, check: Value -> Option<FieldsProblem>): Option<FieldsProblem>
    decreases |xs|
  {
    if xs == [] then None
    else if check(xs[0]).Some? then check(xs[0])
    else FirstProblem(xs[1..], check)
  }

  lemma {:induction false} FirstProblemNone(xs: seq<Value>, check: Value -> Option<FieldsProblem>)
    ensures FirstProblem(xs, check).None? <==> forall i :: 0 <= i < |xs| ==> check(xs[i]).None?
    decreases |xs|
  {
    if xs != [] {
      FirstProblemNone(xs[1..], check);
      assert forall i :: 1 <= i < |xs| ==> xs[i] == xs[1..][i - 1];
    }
  }

  lemma {:induction false} FirstProblemAt(xs: seq<Value>, check: Value -> Option<FieldsProblem>, k: nat)
    requires k < |xs| && check(xs[k]).Some?
    requires forall i :: 0 <= i < k ==> check(xs[i]).None?
    ensures FirstProblem(xs, check) == check(xs[k])
    decreases k
  {
    if k > 0 {
      FirstProblemAt(xs[1..], check, k - 1);
    }
  }

  /** The exception `checkFields` throws, if any: the first bad field, then a
      label list of the wrong length, then the first bad label. */
  function FieldsCheck(fields: seq<Value>, labels: seq<Value>, separator: string): (r: Option<FieldsProblem>)
    ensures r.None? ==> forall i :: 0 <= i < |fields| ==> Stringify(fields[i]).Some?
    ensures r.None? ==> forall i :: 0 <= i < |labels| ==> Stringify(labels[i]).Some?
  {
    var labelled := |labels| > 0;
    var fieldCheck := v => FieldProblem(v, labelled, separator);
    var labelCheck := v => LabelProblem(v, separator);
    FirstProblemNone(fields, fieldCheck);
    FirstProblemNone(labels, labelCheck);
    if FirstProblem(fields, fieldCheck).Some? then FirstProblem(fields, fieldCheck)
    else if !labelled then None
    else if |labels| != |fields| then Some(LabelCountMismatch)
    else FirstProblem(labels, labelCheck)
  }

  /** `checkFields`: two loops that stop at the first bad entry. */
  method CheckFields(fields: seq<Value>, fieldIndexes: seq<Value>, separator: string)
    returns (problem: Option<FieldsProblem>)
    ensures problem == FieldsCheck(fields, fieldIndexes, separator)
  {
    ghost var fieldCheck := v => FieldProblem(v, |fieldIndexes| > 0, separator);
    ghost var labelCheck := v => LabelProblem(v, separator);
    for i := 0 to |fields|
      invariant forall j :: 0 <= j < i ==> fieldCheck(fields[j]).None?
    {
      var fieldStr := Stringify(fields[i]);
      if fieldStr.None? {
        FirstProblemAt(fields, fieldCheck, i);
        return Some(FieldWithoutString);
      }
      if Truthy(StrStr(fieldStr.value, separator)) && |fieldIndexes| == 0 {
        FirstProblemAt(fields, fieldCheck, i);
        return Some(FieldContainsSeparator);
      }
    }
    FirstProblemNone(fields, fieldCheck);
    if |fieldIndexes| > 0 {
      if |fieldIndexes| != |fields| {
        return Some(LabelCountMismatch);
      }
      for i := 0 to |fieldIndexes|
        invariant forall j :: 0 <= j < i ==> labelCheck(fieldIndexes[j]).None?
      {
        var labelStr := Stringify(fieldIndexes[i]);
        if labelStr.None? {
          FirstProblemAt(fieldIndexes, labelCheck, i);
          return Some(LabelWithoutString);
        }
        if Truthy(StrStr(labelStr.value, separator)) {
          FirstProblemAt(fieldIndexes, labelCheck, i);
          return Some(LabelContainsSeparator);
        }
      }
      FirstProblemNone(fieldIndexes, labelCheck);
    }
    return None;
  }

  // ----------------------------------------------------------- setFirstRow

  predicate AllStringy(vs: seq<Value>) {
    forall i :: 0 <= i < |vs| ==> Stringify(vs[i]).Some?
  }

  /** The string forms of a list of values, as `implode` and array keys see them. */
  function Names(vs: seq<Value>): (r: seq<string>)
    requires AllStringy(vs)
    ensures |r| == |vs|
  {
    seq(|vs|, i requires 0 <= i < |vs| => Stringify(vs[i]).value)
  }

  /** The column titles: the labels when there are any, else the field names. */
  function HeaderNames(names: seq<string>, labelNames: seq<string>): seq<string> {
    if |labelNames| > 0 then labelNames else names
  }

  /** `setFirstRow`. */
  function FirstRow(names: seq<string>, labelNames: seq<string>, separator: string): string {
    Join(HeaderNames(names, labelNames), separator) + "\n"
  }

  // ---------------------------------------------------------- getDataValue

  /** `intval` applied to a boolean; other values pass through. */
  function BoolAsInt(v: Value): Value {
    if v.Bool? then Int(if v.b then 1 else 0) else v
  }

  /** A present value that `getDataValue` can turn into text without raising. */
  predicate Renderable(v: Value) {
    v.Date? || Stringify(BoolAsInt(v)).Some?
  }

  predicate CellRenderable(row: Record, field: string) {
    Lookup(row, field).None? || Renderable(Lookup(row, field).value)
  }

  /** `getDataValue`: the filler unless the record holds a non-null value for the
      field; a date is formatted and returned as is, a boolean becomes 1 or 0,
      anything else its string form. */
  function DataValue(row: Record, field: string, dateFormat: string, filler: string, formatDate: DateFormatter): string
    requires CellRenderable(row, field)
  {
    var value := if Lookup(row, field).Some? then Lookup(row, field).value else Str(filler);
    if value.Date? then formatDate(value.timestamp, dateFormat)
    else Stringify(BoolAsInt(value)).value
  }

  // -------------------------------------------------------- parseDataToCSV

  /** One cell as written: the value with the separator replaced. */
  function Cell(row: Record, field: string, f: CellFormat): string
    requires CellRenderable(row, field)
  {
    Replace(DataValue(row, field, f.dateFormat, f.filler, f.formatDate), f.separator, f.replacement)
  }

  predicate RowRenderable(row: Record, names: seq<string>) {
    forall j :: 0 <= j < |names| ==> CellRenderable(row, names[j])
  }

  predicate RowsRenderable(rows: seq<Record>, names: seq<string>) {
    forall i :: 0 <= i < |rows| ==> RowRenderable(rows[i], names)
  }

  /** The cells of one record, one per field, in field order. */
  function RowCells(row: Record, names: seq<string>, f: CellFormat): (r: seq<string>)
    requires RowRenderable(row, names)
    ensures |r| == |names|
  {
    seq(|names|, j requires 0 <= j < |names| => Cell(row, names[j], f))
  }

  /** The text of the line written for one record, without its newline. */
  function RowText(row: Record, names: seq<string>, f: CellFormat): string
    requires RowRenderable(row, names)
  {
    Join(RowCells(row, names, f), f.separator)
  }

  function RowTexts(rows: seq<Record>, names: seq<string>, f: CellFormat): (r: seq<string>)
    requires RowsRenderable(rows, names)
    ensures |r| == |rows|
  {
    seq(|rows|, i requires 0 <= i < |rows| => RowText(rows[i], names, f))
  }

  /** What the caller must guarantee: once the data and the fields are accepted,
      every value that reaches a cell has a string form (a value without one makes
      `getDataValue` raise an error the writer does not catch). */
  predicate CellsRenderable(data: Collection, fields: seq<Value>, fieldIndexes: seq<Value>, separator: string) {
    !IsIterable(data)
    || FieldsCheck(fields, fieldIndexes, EffectiveSeparator(separator)).Some?
    || RowsRenderable(data.rows, Names(fields))
  }

  /** What `parseDataToCSV` returns or throws. */
  function CsvText(
    data: Collection, fields: seq<Value>, fieldIndexes: seq<Value>,
    separator: string, separatorReplacement: string, dateFormat: string, filler: string,
    formatDate: DateFormatter): Result<string, CsvError>
    requires CellsRenderable(data, fields, fieldIndexes, separator)
  {
    var sep := EffectiveSeparator(separator);
    var f := EffectiveFormat(separator, separatorReplacement, dateFormat, filler, formatDate);
    if !IsIterable(data) then Failure(MalformedObject)
    else match FieldsCheck(fields, fieldIndexes, sep)
      case Some(p) => Failure(MalformedFields(p))
      case None =>
        var names := Names(fields);
        Success(FirstRow(names, Names(fieldIndexes), sep) + Terminated(RowTexts(data.rows, names, f)))
  }

  /** `parseDataToCSV`. */
  method ParseDataToCSV(
    dataObject: Collection, fields: seq<Value>, fieldIndexes: seq<Value>,
    separator: string, separatorReplacement: string, dateFormat: string, filler: string,
    formatDate: DateFormatter) returns (result: Result<string, CsvError>)
    requires CellsRenderable(dataObject, fields, fieldIndexes, separator)
    ensures result == CsvText(dataObject, fields, fieldIndexes, separator, separatorReplacement, dateFormat, filler, formatDate)
  {
    var sep := separator;
    var replacement := separatorReplacement;
    if Falsy(sep) {
      sep := DefaultSeparator;
    }
    if Falsy(replacement) {
      replacement := DefaultReplacement;
    }
    var f := CellFormat(sep, replacement, dateFormat, filler, formatDate);
    if !IsIterable(dataObject) {
      CsvTextCases(dataObject, fields, fieldIndexes, separator, separatorReplacement, dateFormat, filler, formatDate);
      return Failure(MalformedObject);
    }
    var problem := CheckFields(fields, fieldIndexes, sep);
    if problem.Some? {
      CsvTextCases(dataObject, fields, fieldIndexes, separator, separatorReplacement, dateFormat, filler, formatDate);
      return Failure(MalformedFields(problem.value));
    }
    var names := Names(fields);
    var rows := dataObject.rows;
    assert RowsRenderable(rows, names);
    var header := FirstRow(names, Names(fieldIndexes), sep);
    var data := header;
    ghost var lines: seq<string> := [];
    for i := 0 to |rows|
      invariant lines == RowTexts(rows[..i], names, f)
      invariant data == header + Terminated(lines)
    {
      assert RowRenderable(rows[i], names);
      var line := WriteRow(rows[i], names, f);
      RowTextsSnoc(rows, i, names, f);
      AppendLine(header, lines, line);
      data := data + line + "\n";
      lines := lines + [line];
    }
    assert rows[..|rows|] == rows;
    CsvTextCases(dataObject, fields, fieldIndexes, separator, separatorReplacement, dateFormat, filler, formatDate);
    return Success(data);
  }

  /** The inner loop of `parseDataToCSV`: the cells of one record, in field
      order, joined by the separator. */
  method WriteRow(row: Record, names: seq<string>, f: CellFormat) returns (line: string)
    requires RowRenderable(row, names)
    ensures line == RowText(row, names, f)
  {
    var dataRow := [];
    for j := 0 to |names|
      invariant |dataRow| == j
      invariant forall k :: 0 <= k < j ==> dataRow[k] == Cell(row, names[k], f)
    {
      var dataValue := DataValue(row, names[j], f.dateFormat, f.filler, f.formatDate);
      dataRow := dataRow + [Replace(dataValue, f.separator, f.replacement)];
    }
    assert dataRow == RowCells(row, names, f);
    line := Join(dataRow, f.separator);
  }

  /** CsvText, case by case, with the defaults applied. */
  lemma CsvTextCases(
    data: Collection, fields: seq<Value>, fieldIndexes: seq<Value>,
    separator: string, separatorReplacement: string, dateFormat: string, filler: string,
    formatDate: DateFormatter)
    requires CellsRenderable(data, fields, fieldIndexes, separator)
    ensures var sep := EffectiveSeparator(separator);
      var out := CsvText(data, fields, fieldIndexes, separator, separatorReplacement, dateFormat, filler, formatDate);
      && (!IsIterable(data) ==> out == Failure(MalformedObject))
      && (IsIterable(data) && FieldsCheck(fields, fieldIndexes, sep).Some? ==>
            out == Failure(MalformedFields(FieldsCheck(fields, fieldIndexes, sep).value)))
      && (IsIterable(data) && FieldsCheck(fields, fieldIndexes, sep).None? ==>
            RowsRenderable(data.rows, Names(fields)) &&
            out == Success(FirstRow(Names(fields), Names(fieldIndexes), sep) +
              Terminated(RowTexts(data.rows, Names(fields),
                EffectiveFormat(separator, separatorReplacement, dateFormat, filler, formatDate)))))
  {
  }

  lemma RowTextsSnoc(rows: seq<Record>, i: nat, names: seq<string>, f: CellFormat)
    requires i < |rows| && RowsRenderable(rows, names)
    ensures RowTexts(rows[..i + 1], names, f) == RowTexts(rows[..i], names, f) + [RowText(rows[i], names, f)]
  {
  }

  // ------------------------------------------------------------ setHeaders

  /** `setHeaders`; `now` stands for `time()`, which names the file when no
      filename (or a falsy one) is given. */
  function SetHeaders(filename: string, now: int): (headers: map<string, string>)
    ensures headers.Keys == {"Content-Type", "Content-Disposition"}
    ensures headers["Content-Type"] == "text/csv"
  {
    var name := if Falsy(filename) then IntToString(now) else filename;
    map["Content-Type" := "text/csv", "Content-Disposition" := "attachment; filename=\"" + name + ".csv\""]
  }
}
