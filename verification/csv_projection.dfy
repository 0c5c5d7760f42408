/**
 * The projection of a JSON array of objects onto CSV rows, as performed by the
 * three `printToCsv` overloads of `util.JsonUtil`. The opencsv writer is left
 * out: a row is the sequence of unescaped cells handed to it, and an `Outcome`
 * records every row that reached it before the call completed or threw.
 */
module CsvProjection {
  import opened Wrappers
  import opened JsonValues

  /** The cells handed to one `writeNext` call. */
  type Row = seq<string>

  /** `AsWritten` reproduces the code: a missing key and an empty string value
      both throw. `Intended` is the corrected behaviour: a missing key gives an
      empty cell, as the doc-comments promise, and an empty string value gives
      an empty cell too, which the doc-comments do not mention but which is the
      only result consistent with the quote rule (there is no quote to strip). */
  datatype Behaviour = AsWritten | Intended

  /** Why the quote rule could not produce a cell from a string value. */
  datatype TextFault =
    | EmptyText   // `charAt(0)` on ""
    | LoneQuote   // `substring(1, 0)` on a value that is exactly one quote

  /** The exception that ends a call, with the entry index and key it arose at. */
  datatype Error =
    | EmptyArray                                        // `json.get(0)` on []
    | NotAnObject(record: nat)                          // `asJsonObject` on a non-object
    | MissingKey(record: nat, key: string)              // `getString` on an absent key
    | NotAString(record: nat, key: string)              // `getString` on a non-string
    | BadText(record: nat, key: string, fault: TextFault)

  /** The rows written before the call returned, and the error it threw, if any. */
  datatype Outcome = Outcome(written: seq<Row>, failure: Option<Error>)

  const Quote: char := '"'

  /** The cell emitted for a string value: a value that opens with a double
      quote loses its first and last characters; any other value is kept. */
  function Normalize(text: string, behaviour: Behaviour): (r: Result<string, TextFault>)
    ensures |text| == 0 ==> r == (if behaviour == AsWritten then Failure(EmptyText) else Success(""))
    ensures text == [Quote] ==> r == Failure(LoneQuote)
    ensures |text| >= 2 && text[0] == Quote ==>
      r.Success? && |r.value| == |text| - 2 && text == [Quote] + r.value + [text[|text| - 1]]
    ensures |text| > 0 && text[0] != Quote ==> r == Success(text)
  {
    if |text| == 0 then
      if behaviour == AsWritten then Failure(EmptyText) else Success("")
    else if text[0] == Quote then
      if |text| == 1 then Failure(LoneQuote)
      else
        var inner := text[1..|text| - 1];
        assert text == [Quote] + inner + [text[|text| - 1]];
        Success(inner)
    else
      Success(text)
  }

  /** The cell for column `key` of the object with `members`, the entry at
      index `record`. */
  function Cell(members: seq<Member>, key: string, behaviour: Behaviour, record: nat): Result<string, Error> {
    match Find(members, key)
    case None =>
      if behaviour == Intended then Success("") else Failure(MissingKey(record, key))
    case Some(NonStr) =>
      Failure(NotAString(record, key))
    case Some(Str(text)) =>
      match Normalize(text, behaviour)
      case Success(cell) => Success(cell)
      case Failure(fault) => Failure(BadText(record, key, fault))
  }

  /** The inner loop over the column sequence: one cell per column, in column
      order, stopping at the first column whose cell throws. */
  function Cells(members: seq<Member>, columns: seq<string>, behaviour: Behaviour, record: nat): (r: Result<Row, Error>)
    ensures r.Success? <==>
      forall i :: 0 <= i < |columns| ==> Cell(members, columns[i], behaviour, record).Success?
    ensures r.Success? ==>
      |r.value| == |columns| &&
      forall i :: 0 <= i < |columns| ==> r.value[i] == Cell(members, columns[i], behaviour, record).value
    ensures r.Failure? ==>
      exists i :: 0 <= i < |columns| && Cell(members, columns[i], behaviour, record).Failure? &&
        r.error == Cell(members, columns[i], behaviour, record).error &&
        forall k :: 0 <= k < i ==> Cell(members, columns[k], behaviour, record).Success?
    decreases |columns|
  {
    if |columns| == 0 then Success([])
    else
      match Cell(members, columns[0], behaviour, record)
      case Failure(e) => Failure(e)
      case Success(cell) =>
        var rest := Cells(members, columns[1..], behaviour, record);
        assert forall i :: 0 <= i < |columns| - 1 ==> columns[1..][i] == columns[i + 1];
        match rest
        case Failure(e) =>
          var i :| 0 <= i < |columns| - 1 && Cell(members, columns[1..][i], behaviour, record).Failure? &&
            e == Cell(members, columns[1..][i], behaviour, record).error &&
            forall k :: 0 <= k < i ==> Cell(members, columns[1..][k], behaviour, record).Success?;
          assert columns[i + 1] == columns[1..][i];
          assert forall k :: 0 <= k < i + 1 ==> Cell(members, columns[k], behaviour, record).Success?;
          Failure(e)
        case Success(tail) => Success([cell] + tail)
  }

  /** The data row for the entry at index `record`: the entry must be an
      object, whatever the columns are. */
  function DataRow(entry: Entry, columns: seq<string>, behaviour: Behaviour, record: nat): Result<Row, Error> {
    match entry
    case NonObject => Failure(NotAnObject(record))
    case Object(members) => Cells(members, columns, behaviour, record)
  }

  /** The column sequence: a copy of the caller's sequence, or else the key
      set of the first entry in that entry's order. */
  function Columns(records: seq<Entry>, sequence: Option<seq<string>>): (r: Result<seq<string>, Error>)
    ensures sequence.Some? ==> r == Success(sequence.value)
    ensures sequence.None? && |records| == 0 ==> r == Failure(EmptyArray)
    ensures sequence.None? && |records| > 0 && records[0].NonObject? ==> r == Failure(NotAnObject(0))
    ensures sequence.None? && |records| > 0 && records[0].Object? ==> r == Success(Keys(records[0].members))
  {
    match sequence
    case Some(given) => Success(given)
    case None =>
      if |records| == 0 then Failure(EmptyArray)
      else
        match records[0]
        case NonObject => Failure(NotAnObject(0))
        case Object(members) => Success(Keys(members))
  }

  /** A header row is written when the caller asks for one, and always when
      the columns are derived from the first entry. */
  function WritesHeader(sequence: Option<seq<string>>, headers: bool): (b: bool)
    ensures sequence.None? ==> b
    ensures sequence.Some? ==> b == headers
  {
    sequence.None? || headers
  }

  /** The outer loop over the entries: the rows in `results` are written one
      by one until the first that throws, which ends the loop. */
  function Collect(results: seq<Result<Row, Error>>): (o: Outcome)
    ensures o.failure.None? <==> forall j :: 0 <= j < |results| ==> results[j].Success?
    ensures o.failure.None? ==> |o.written| == |results|
    ensures o.failure.Some? ==>
      exists k :: 0 <= k < |results| && results[k] == Failure(o.failure.value) && |o.written| == k
    ensures forall j :: 0 <= j < |o.written| ==> results[j] == Success(o.written[j])
    decreases |results|
  {
    if |results| == 0 then Outcome([], None)
    else
      match results[0]
      case Failure(e) => Outcome([], Some(e))
      case Success(row) =>
        var rest := Collect(results[1..]);
        assert forall j :: 0 <= j < |results| - 1 ==> results[1..][j] == results[j + 1];
        var o := Outcome([row] + rest.written, rest.failure);
        assert forall j :: 0 <= j < |rest.written| ==> o.written[j + 1] == rest.written[j];
        if rest.failure.Some? then
          var k :| 0 <= k < |results| - 1 && results[1..][k] == Failure(rest.failure.value) && |rest.written| == k;
          assert results[k + 1] == Failure(o.failure.value) && |o.written| == k + 1;
          o
        else
          o
  }

  /** The data row of every entry, each computed as if all earlier ones had
      succeeded. */
  function RowResults(records: seq<Entry>, columns: seq<string>, behaviour: Behaviour): seq<Result<Row, Error>> {
    seq(|records|, j requires 0 <= j < |records| => DataRow(records[j], columns, behaviour, j))
  }

  /** What the writer holds once the outer loop has ended, given the columns
      and whether a header row is written: the header first when there is
      one, equal to the columns; then the rows of the entries in order, up to
      the first entry that throws, whose exception ends the call. */
  predicate Transcript(o: Outcome, records: seq<Entry>, columns: seq<string>, behaviour: Behaviour, hw: bool) {
    var h := if hw then 1 else 0;
    h <= |o.written| &&
    (hw ==> o.written[0] == columns) &&
    (o.failure.None? <==> forall j :: 0 <= j < |records| ==> DataRow(records[j], columns, behaviour, j).Success?) &&
    (o.failure.None? ==> |o.written| == h + |records|) &&
    (o.failure.Some? ==>
      exists k :: 0 <= k < |records| && DataRow(records[k], columns, behaviour, k).Failure? &&
        o.failure.value == DataRow(records[k], columns, behaviour, k).error &&
        |o.written| == h + k) &&
    forall j :: 0 <= j < |o.written| - h ==>
      (DataRow(records[j], columns, behaviour, j).Success? &&
      o.written[h + j] == DataRow(records[j], columns, behaviour, j).value)
  }

  /** Everything a call of `printToCsv(json, writer, sequence, headers)`
      hands to the writer, and the exception it ends with, if any. */
  function Write(records: seq<Entry>, sequence: Option<seq<string>>, headers: bool, behaviour: Behaviour): (o: Outcome)
    ensures Columns(records, sequence).Failure? ==>
      o == Outcome([], Some(Columns(records, sequence).error))
    ensures Columns(records, sequence).Success? ==>
      Transcript(o, records, Columns(records, sequence).value, behaviour, WritesHeader(sequence, headers))
  {
    match Columns(records, sequence)
    case Failure(e) => Outcome([], Some(e))
    case Success(columns) =>
      var hw := WritesHeader(sequence, headers);
      var header := if hw then [columns] else [];
      var data := Collect(RowResults(records, columns, behaviour));
      HeaderThenData(records, columns, behaviour, hw);
      Outcome(header + data.written, data.failure)
  }

  /** The writer's view of the outer loop: the header rows, then the rows of
      the entries before the first that throws. */
  lemma HeaderThenData(records: seq<Entry>, columns: seq<string>, behaviour: Behaviour, hw: bool)
    ensures var data := Collect(RowResults(records, columns, behaviour));
      Transcript(Outcome((if hw then [columns] else []) + data.written, data.failure), records, columns, behaviour, hw)
  {
    var data := Collect(RowResults(records, columns, behaviour));
    DataRowsCollected(records, columns, behaviour);
    if hw {
      HeaderPrepended(data, records, columns, behaviour);
    } else {
      assert [] + data.written == data.written;
    }
  }

  /** Writing the header row first shifts every data row down by one. */
  lemma HeaderPrepended(data: Outcome, records: seq<Entry>, columns: seq<string>, behaviour: Behaviour)
    requires Transcript(data, records, columns, behaviour, false)
    ensures Transcript(Outcome([columns] + data.written, data.failure), records, columns, behaviour, true)
  {
    var o := Outcome([columns] + data.written, data.failure);
    forall j | 0 <= j < |o.written| - 1
      ensures DataRow(records[j], columns, behaviour, j).Success? &&
        o.written[1 + j] == DataRow(records[j], columns, behaviour, j).value
    {
      assert o.written[1 + j] == data.written[j];
    }
    if data.failure.Some? {
      var k :| 0 <= k < |records| && DataRow(records[k], columns, behaviour, k).Failure? &&
        data.failure.value == DataRow(records[k], columns, behaviour, k).error && |data.written| == k;
      assert |o.written| == 1 + k;
    }
  }

  /** The outer loop alone, before any header: its outcome is a transcript
      without a header row. */
  lemma DataRowsCollected(records: seq<Entry>, columns: seq<string>, behaviour: Behaviour)
    ensures Transcript(Collect(RowResults(records, columns, behaviour)), records, columns, behaviour, false)
  {
    var results := RowResults(records, columns, behaviour);
    assert forall j :: 0 <= j < |records| ==> results[j] == DataRow(records[j], columns, behaviour, j);
    var data := Collect(results);
    if data.failure.Some? {
      var k :| 0 <= k < |results| && results[k] == Failure(data.failure.value) && |data.written| == k;
      assert DataRow(records[k], columns, behaviour, k) == Failure(data.failure.value);
    }
  }

  /** `printToCsv(json, writer, sequence, headers)` as all-or-nothing: the
      rows written when the call returns normally, or the exception it threw. */
  function PrintToCsv(records: seq<Entry>, sequence: Option<seq<string>>, headers: bool, behaviour: Behaviour): (r: Result<seq<Row>, Error>)
    ensures r.Success? <==>
      Columns(records, sequence).Success? &&
      forall j :: 0 <= j < |records| ==> DataRow(records[j], Columns(records, sequence).value, behaviour, j).Success?
    ensures r.Success? ==>
      var columns := Columns(records, sequence).value;
      var h := if WritesHeader(sequence, headers) then 1 else 0;
      |r.value| == |records| + h &&
      (h == 1 ==> r.value[0] == columns) &&
      forall j :: 0 <= j < |records| ==>
        (|r.value[h + j]| == |columns| &&
        r.value[h + j] == DataRow(records[j], columns, behaviour, j).value)
    ensures r.Failure? ==>
      (Columns(records, sequence).Failure? && r.error == Columns(records, sequence).error) ||
      (Columns(records, sequence).Success? &&
        exists k :: 0 <= k < |records| &&
          DataRow(records[k], Columns(records, sequence).value, behaviour, k).Failure? &&
          r.error == DataRow(records[k], Columns(records, sequence).value, behaviour, k).error &&
          forall j :: 0 <= j < k ==> DataRow(records[j], Columns(records, sequence).value, behaviour, j).Success?)
  {
    var o := Write(records, sequence, headers, behaviour);
    if o.failure.None? then Success(o.written) else Failure(o.failure.value)
  }

  /** `printToCsv(json, writer)`: columns from the first entry, with a header. */
  function PrintToCsvWithHeader(records: seq<Entry>, behaviour: Behaviour): (r: Result<seq<Row>, Error>)
    ensures r.Success? ==>
      |records| > 0 && records[0].Object? &&
      |r.value| == |records| + 1 && r.value[0] == Keys(records[0].members) &&
      forall j :: 1 <= j <= |records| ==> |r.value[j]| == |records[0].members|
    ensures |records| == 0 ==> r == Failure(EmptyArray)
  {
    PrintToCsv(records, None, true, behaviour)
  }

  /** `printToCsv(json, writer, sequence)`: a null sequence behaves as the
      two-argument form (derived columns, header written); any other sequence
      gives the data rows alone, without a header. */
  function PrintToCsvInOrder(records: seq<Entry>, sequence: Option<seq<string>>, behaviour: Behaviour): (r: Result<seq<Row>, Error>)
    ensures sequence.None? ==> r == PrintToCsvWithHeader(records, behaviour)
    ensures sequence.Some? && r.Success? ==>
      |r.value| == |records| &&
      forall j :: 0 <= j < |records| ==> |r.value[j]| == |sequence.value|
  {
    PrintToCsv(records, sequence, false, behaviour)
  }
}
