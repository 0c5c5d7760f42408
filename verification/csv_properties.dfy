/**
 * Properties of the CSV projection: an independent, cell-by-cell reference
 * definition of its result, and the column, header, row and failure rules
 * stated as lemmas about `PrintToCsv` and its two overloads.
 */
module CsvProperties {
  import opened Wrappers
  import opened JsonValues
  import opened CsvProjection

  /** Reference rule: which result of looking a column up in an object yields
      a cell rather than an exception. */
  predicate Acceptable(found: Option<Value>, behaviour: Behaviour) {
    match found
    case None => behaviour == Intended
    case Some(NonStr) => false
    case Some(Str(text)) => text != [Quote] && (text != [] || behaviour == Intended)
  }

  /** Reference rule: the cell written for an acceptable lookup result. */
  function Expected(found: Option<Value>): string {
    match found
    case Some(Str(text)) => if |text| >= 2 && text[0] == Quote then text[1..|text| - 1] else text
    case _ => ""
  }

  /** Reference rule: every entry is an object, even when there are no
      columns, and every column of it is acceptable. */
  predicate AllAcceptable(records: seq<Entry>, columns: seq<string>, behaviour: Behaviour) {
    forall j :: 0 <= j < |records| ==>
      records[j].Object? &&
      forall i :: 0 <= i < |columns| ==> Acceptable(Find(records[j].members, columns[i]), behaviour)
  }

  /** One cell agrees with the reference rules. */
  lemma CellMatchesReference(members: seq<Member>, key: string, behaviour: Behaviour, record: nat)
    ensures Cell(members, key, behaviour, record).Success? <==> Acceptable(Find(members, key), behaviour)
    ensures Cell(members, key, behaviour, record).Success? ==>
      Cell(members, key, behaviour, record).value == Expected(Find(members, key))
  {
  }

  /** One data row agrees with the reference rules. */
  lemma RowMatchesReference(entry: Entry, columns: seq<string>, behaviour: Behaviour, record: nat)
    ensures DataRow(entry, columns, behaviour, record).Success? <==>
      entry.Object? && forall i :: 0 <= i < |columns| ==> Acceptable(Find(entry.members, columns[i]), behaviour)
    ensures DataRow(entry, columns, behaviour, record).Success? ==>
      |DataRow(entry, columns, behaviour, record).value| == |columns| &&
      forall i :: 0 <= i < |columns| ==>
        DataRow(entry, columns, behaviour, record).value[i] == Expected(Find(entry.members, columns[i]))
  {
    if entry.Object? {
      forall i | 0 <= i < |columns| {
        CellMatchesReference(entry.members, columns[i], behaviour, record);
      }
    }
  }

  /** How one cell arises from the lookup of its column, and that every
      exception it throws names the entry and the column it arose at. */
  lemma CellRules(members: seq<Member>, key: string, behaviour: Behaviour, record: nat)
    ensures var r := Cell(members, key, behaviour, record);
      (Find(members, key).None? ==>
        r == (if behaviour == Intended then Success("") else Failure(MissingKey(record, key)))) &&
      (Find(members, key) == Some(NonStr) ==> r == Failure(NotAString(record, key))) &&
      (Find(members, key).Some? && Find(members, key).value.Str? ==>
        var text := Find(members, key).value.text;
        (|text| > 0 && text[0] != Quote ==> r == Success(text)) &&
        (|text| >= 2 && text[0] == Quote ==> r.Success? && |r.value| == |text| - 2)) &&
      (r.Failure? ==> !r.error.EmptyArray? && !r.error.NotAnObject? && r.error.record == record && r.error.key == key)
  {
  }

  /** A data row needs an object entry, has one cell per column, and every
      exception it throws names its entry. */
  lemma DataRowRules(entry: Entry, columns: seq<string>, behaviour: Behaviour, record: nat)
    ensures var r := DataRow(entry, columns, behaviour, record);
      (entry.NonObject? ==> r == Failure(NotAnObject(record))) &&
      (r.Success? ==> entry.Object? && |r.value| == |columns|) &&
      (r.Failure? ==> !r.error.EmptyArray? && r.error.record == record)
  {
    var r := DataRow(entry, columns, behaviour, record);
    if r.Failure? && entry.Object? {
      var i :| 0 <= i < |columns| && Cell(entry.members, columns[i], behaviour, record).Failure? &&
        r.error == Cell(entry.members, columns[i], behaviour, record).error;
      CellRules(entry.members, columns[i], behaviour, record);
    }
  }

  /** The whole projection agrees with the reference rules: it succeeds exactly
      when every entry is an object and every looked-up value is acceptable, and
      then it writes the optional header followed by one row per entry whose
      cell `i` is the reference cell for column `i`. */
  lemma PrintToCsvMatchesReference(records: seq<Entry>, sequence: Option<seq<string>>, headers: bool, behaviour: Behaviour)
    requires Columns(records, sequence).Success?
    ensures var columns := Columns(records, sequence).value;
      PrintToCsv(records, sequence, headers, behaviour).Success? <==> AllAcceptable(records, columns, behaviour)
    ensures var columns := Columns(records, sequence).value;
      var h := if WritesHeader(sequence, headers) then 1 else 0;
      var r := PrintToCsv(records, sequence, headers, behaviour);
      r.Success? ==>
        |r.value| == h + |records| &&
        (h == 1 ==> r.value[0] == columns) &&
        forall j :: 0 <= j < |records| ==>
          records[j].Object? && |r.value[h + j]| == |columns| &&
          forall i :: 0 <= i < |columns| ==> r.value[h + j][i] == Expected(Find(records[j].members, columns[i]))
  {
    var columns := Columns(records, sequence).value;
    forall j | 0 <= j < |records| {
      RowMatchesReference(records[j], columns, behaviour, j);
    }
    if PrintToCsv(records, sequence, headers, behaviour).Success? {
      forall j | 0 <= j < |records| {
        CallRowMatchesReference(records, sequence, headers, behaviour, j);
      }
    }
  }

  /** Data row `j` of a successful call holds the reference cells of entry `j`. */
  lemma CallRowMatchesReference(records: seq<Entry>, sequence: Option<seq<string>>, headers: bool, behaviour: Behaviour, j: nat)
    requires Columns(records, sequence).Success? && j < |records|
    requires PrintToCsv(records, sequence, headers, behaviour).Success?
    ensures var columns := Columns(records, sequence).value;
      var h := if WritesHeader(sequence, headers) then 1 else 0;
      var r := PrintToCsv(records, sequence, headers, behaviour);
      records[j].Object? && |r.value[h + j]| == |columns| &&
      forall i :: 0 <= i < |columns| ==> r.value[h + j][i] == Expected(Find(records[j].members, columns[i]))
  {
    var columns := Columns(records, sequence).value;
    var h := if WritesHeader(sequence, headers) then 1 else 0;
    var r := PrintToCsv(records, sequence, headers, behaviour);
    var row := DataRow(records[j], columns, behaviour, j);
    assert row.Success? && r.value[h + j] == row.value;
    RowMatchesReference(records[j], columns, behaviour, j);
  }

  // ---------------------------------------------------------------------------
  // Column resolution and the header row
  // ---------------------------------------------------------------------------

  /** Without a sequence the columns are the first entry's keys in its own
      order, a header row of those keys always comes first, and an empty array
      or a non-object first entry throws before anything is written. */
  lemma DerivedColumnsAreFirstEntryKeys(records: seq<Entry>, headers: bool, behaviour: Behaviour)
    ensures var r := PrintToCsv(records, None, headers, behaviour);
      r.Success? ==>
        |records| > 0 && records[0].Object? &&
        |r.value| == |records| + 1 && r.value[0] == Keys(records[0].members)
    ensures |records| == 0 ==> PrintToCsv(records, None, headers, behaviour) == Failure(EmptyArray)
    ensures |records| > 0 && records[0].NonObject? ==>
      PrintToCsv(records, None, headers, behaviour) == Failure(NotAnObject(0))
    ensures |records| == 0 ==> Write(records, None, headers, behaviour) == Outcome([], Some(EmptyArray))
    ensures |records| > 0 && records[0].NonObject? ==>
      Write(records, None, headers, behaviour) == Outcome([], Some(NotAnObject(0)))
    ensures var w := Write(records, None, headers, behaviour);
      |records| > 0 && records[0].Object? ==> |w.written| > 0 && w.written[0] == Keys(records[0].members)
  {
  }

  /** Without a sequence the `headers` flag is overridden: both values give
      the same outcome. */
  lemma HeaderForcedWithoutSequence(records: seq<Entry>, behaviour: Behaviour)
    ensures Write(records, None, false, behaviour) == Write(records, None, true, behaviour)
    ensures PrintToCsv(records, None, false, behaviour) == PrintToCsv(records, None, true, behaviour)
  {
  }

  /** With unique keys (as every JSON object has), the first entry's row under
      derived columns reads its members one by one, in order: no column of it
      is ever missing. */
  lemma FirstEntryReadsItsOwnMembers(members: seq<Member>, behaviour: Behaviour)
    requires UniqueKeys(members)
    ensures var row := DataRow(Object(members), Keys(members), behaviour, 0);
      (row.Success? <==> forall i :: 0 <= i < |members| ==> Acceptable(Some(members[i].value), behaviour)) &&
      (row.Success? ==> forall i :: 0 <= i < |members| ==> row.value[i] == Expected(Some(members[i].value)))
  {
    forall i | 0 <= i < |members|
      ensures Find(members, Keys(members)[i]) == Some(members[i].value)
    {
      FindUnique(members, i);
    }
    RowMatchesReference(Object(members), Keys(members), behaviour, 0);
  }

  /** With a sequence the columns are exactly that sequence, whatever the
      entries hold; a header row of it is written only when asked for. */
  lemma ExplicitColumnsAreTheSequence(records: seq<Entry>, sequence: seq<string>, headers: bool, behaviour: Behaviour)
    ensures Columns(records, Some(sequence)) == Success(sequence)
    ensures var r := PrintToCsv(records, Some(sequence), headers, behaviour);
      var h := if headers then 1 else 0;
      r.Success? ==>
        |r.value| == |records| + h &&
        (headers ==> r.value[0] == sequence) &&
        forall j :: 0 <= j < |records| ==> records[j].Object? && |r.value[h + j]| == |sequence|
  {
    PrintToCsvMatchesReference(records, Some(sequence), headers, behaviour);
  }

  // ---------------------------------------------------------------------------
  // The two convenience overloads
  // ---------------------------------------------------------------------------

  /** `printToCsv(json, writer)` is `printToCsv(json, writer, null, b)` for
      either value of `b`. */
  lemma WithHeaderIsNullSequence(records: seq<Entry>, headers: bool, behaviour: Behaviour)
    ensures PrintToCsvWithHeader(records, behaviour) == PrintToCsv(records, None, headers, behaviour)
  {
    HeaderForcedWithoutSequence(records, behaviour);
  }

  /** `printToCsv(json, writer, sequence)` with a non-null sequence never
      writes a header: its rows are the data rows alone, one per entry, in
      entry order. */
  lemma InOrderWritesNoHeader(records: seq<Entry>, sequence: seq<string>, behaviour: Behaviour)
    ensures var r := PrintToCsvInOrder(records, Some(sequence), behaviour);
      r.Success? ==>
        |r.value| == |records| &&
        forall j :: 0 <= j < |records| ==>
          records[j].Object? && |r.value[j]| == |sequence| &&
          forall i :: 0 <= i < |sequence| ==> r.value[j][i] == Expected(Find(records[j].members, sequence[i]))
  {
    if PrintToCsvInOrder(records, Some(sequence), behaviour).Success? {
      forall j | 0 <= j < |records| {
        InOrderRow(records, sequence, behaviour, j);
      }
    }
  }

  /** Row `j` of a successful three-argument call is entry `j`'s row. */
  lemma InOrderRow(records: seq<Entry>, sequence: seq<string>, behaviour: Behaviour, j: nat)
    requires j < |records| && PrintToCsvInOrder(records, Some(sequence), behaviour).Success?
    ensures var r := PrintToCsvInOrder(records, Some(sequence), behaviour);
      records[j].Object? && |r.value[j]| == |sequence| &&
      forall i :: 0 <= i < |sequence| ==> r.value[j][i] == Expected(Find(records[j].members, sequence[i]))
  {
    assert PrintToCsvInOrder(records, Some(sequence), behaviour) == PrintToCsv(records, Some(sequence), false, behaviour);
    CallRowMatchesReference(records, Some(sequence), false, behaviour, j);
    assert !WritesHeader(Some(sequence), false) && Columns(records, Some(sequence)).value == sequence;
  }

  /** `printToCsv(json, writer, null)` derives the columns from the first
      entry and writes them as a header, although it passes `headers = false`. */
  lemma InOrderNullSequenceWritesHeader(records: seq<Entry>, behaviour: Behaviour)
    ensures var r := PrintToCsvInOrder(records, None, behaviour);
      (r.Success? ==>
        |records| > 0 && records[0].Object? &&
        |r.value| == |records| + 1 && r.value[0] == Keys(records[0].members)) &&
      (|records| == 0 ==> r == Failure(EmptyArray))
  {
  }

  // ---------------------------------------------------------------------------
  // Cells
  // ---------------------------------------------------------------------------

  /** A string value becomes its cell under the quote rule: a value opening
      with a double quote shrinks by exactly two characters, its first and
      last; any other value is written unchanged. */
  lemma StringCellIsNormalized(records: seq<Entry>, sequence: Option<seq<string>>, headers: bool, behaviour: Behaviour,
                               j: nat, i: nat, text: string)
    requires Columns(records, sequence).Success?
    requires j < |records| && i < |Columns(records, sequence).value|
    requires records[j].Object?
    requires Find(records[j].members, Columns(records, sequence).value[i]) == Some(Str(text))
    ensures var r := PrintToCsv(records, sequence, headers, behaviour);
      var h := if WritesHeader(sequence, headers) then 1 else 0;
      r.Success? ==>
        (|text| > 0 && text[0] == Quote ==>
          |r.value[h + j][i]| == |text| - 2 && r.value[h + j][i] == text[1..|text| - 1]) &&
        (|text| == 0 || text[0] != Quote ==> r.value[h + j][i] == text)
  {
    PrintToCsvMatchesReference(records, sequence, headers, behaviour);
  }

  /** The quote rule undoes one level of double quoting. */
  lemma {:induction false} NormalizeUnquotes(inner: string, behaviour: Behaviour)
    ensures Normalize([Quote] + inner + [Quote], behaviour) == Success(inner)
  {
    var text := [Quote] + inner + [Quote];
    assert text[0] == Quote && |text| >= 2;
    assert text[1..|text| - 1] == inner;
  }

  /** An illustration of the third `Normalize` postcondition: the quote rule
      only looks at the first character, so the last one is dropped even when
      it is not a quote. */
  lemma NormalizeDropsAnyLastCharacter(behaviour: Behaviour)
    ensures Normalize("\"ab", behaviour) == Success("a")
  {
    var text := "\"ab";
    assert text[0] == Quote && text[1..|text| - 1] == "a";
  }

  /** A row depends only on the values its columns look up: two objects that
      agree on every column give the same row or the same exception. */
  lemma {:induction false} RowDependsOnlyOnColumns(members: seq<Member>, others: seq<Member>, columns: seq<string>,
                                                    behaviour: Behaviour, record: nat)
    requires forall i :: 0 <= i < |columns| ==> Find(members, columns[i]) == Find(others, columns[i])
    ensures Cells(members, columns, behaviour, record) == Cells(others, columns, behaviour, record)
    decreases |columns|
  {
    if |columns| > 0 {
      var tail := columns[1..];
      assert Find(members, columns[0]) == Find(others, columns[0]);
      assert Cell(members, columns[0], behaviour, record) == Cell(others, columns[0], behaviour, record);
      forall i | 0 <= i < |tail|
        ensures Find(members, tail[i]) == Find(others, tail[i])
      {
        assert tail[i] == columns[i + 1];
      }
      RowDependsOnlyOnColumns(members, others, tail, behaviour, record);
    }
  }

  /** Keys outside the column sequence never reach the output: adding a member
      under such a key leaves the row unchanged. */
  lemma ExtraKeysIgnored(members: seq<Member>, extra: Member, columns: seq<string>, behaviour: Behaviour, record: nat)
    requires extra.key !in columns
    ensures DataRow(Object(members + [extra]), columns, behaviour, record) == DataRow(Object(members), columns, behaviour, record)
  {
    forall i | 0 <= i < |columns|
      ensures Find(members + [extra], columns[i]) == Find(members, columns[i])
    {
      FindAppend(members, extra, columns[i]);
    }
    RowDependsOnlyOnColumns(members + [extra], members, columns, behaviour, record);
  }

  // ---------------------------------------------------------------------------
  // Failures
  // ---------------------------------------------------------------------------

  /** An entry that is not an object fails the call, even with no columns. */
  lemma NonObjectFails(records: seq<Entry>, sequence: Option<seq<string>>, headers: bool, behaviour: Behaviour, j: nat)
    requires j < |records| && records[j].NonObject?
    ensures PrintToCsv(records, sequence, headers, behaviour).Failure?
  {
    if Columns(records, sequence).Success? {
      PrintToCsvMatchesReference(records, sequence, headers, behaviour);
    }
  }

  /** A column whose value is not a string fails the call. */
  lemma NonStringFails(records: seq<Entry>, sequence: Option<seq<string>>, headers: bool, behaviour: Behaviour, j: nat, i: nat)
    requires Columns(records, sequence).Success?
    requires j < |records| && i < |Columns(records, sequence).value|
    requires records[j].Object?
    requires Find(records[j].members, Columns(records, sequence).value[i]) == Some(NonStr)
    ensures PrintToCsv(records, sequence, headers, behaviour).Failure?
  {
    PrintToCsvMatchesReference(records, sequence, headers, behaviour);
  }

  /** A value that is a lone double quote fails the call. */
  lemma LoneQuoteFails(records: seq<Entry>, sequence: Option<seq<string>>, headers: bool, behaviour: Behaviour, j: nat, i: nat)
    requires Columns(records, sequence).Success?
    requires j < |records| && i < |Columns(records, sequence).value|
    requires records[j].Object?
    requires Find(records[j].members, Columns(records, sequence).value[i]) == Some(Str([Quote]))
    ensures PrintToCsv(records, sequence, headers, behaviour).Failure?
  {
    PrintToCsvMatchesReference(records, sequence, headers, behaviour);
  }

  /** As written, a column absent from an entry fails the call. */
  lemma MissingKeyFailsAsWritten(records: seq<Entry>, sequence: Option<seq<string>>, headers: bool, j: nat, i: nat)
    requires Columns(records, sequence).Success?
    requires j < |records| && i < |Columns(records, sequence).value|
    requires records[j].Object?
    requires Columns(records, sequence).value[i] !in Keys(records[j].members)
    ensures PrintToCsv(records, sequence, headers, AsWritten).Failure?
  {
    PrintToCsvMatchesReference(records, sequence, headers, AsWritten);
  }

  /** As documented, a column absent from an entry is an empty cell and never
      a reason to fail. */
  lemma MissingKeyIsBlankAsIntended(records: seq<Entry>, sequence: Option<seq<string>>, headers: bool, j: nat, i: nat)
    requires Columns(records, sequence).Success?
    requires j < |records| && i < |Columns(records, sequence).value|
    requires records[j].Object?
    requires Columns(records, sequence).value[i] !in Keys(records[j].members)
    ensures Acceptable(Find(records[j].members, Columns(records, sequence).value[i]), Intended)
    ensures var r := PrintToCsv(records, sequence, headers, Intended);
      var h := if WritesHeader(sequence, headers) then 1 else 0;
      r.Success? ==> r.value[h + j][i] == ""
  {
    PrintToCsvMatchesReference(records, sequence, headers, Intended);
  }

  /** As written, an empty string value fails the call. */
  lemma EmptyValueFailsAsWritten(records: seq<Entry>, sequence: Option<seq<string>>, headers: bool, j: nat, i: nat)
    requires Columns(records, sequence).Success?
    requires j < |records| && i < |Columns(records, sequence).value|
    requires records[j].Object?
    requires Find(records[j].members, Columns(records, sequence).value[i]) == Some(Str(""))
    ensures PrintToCsv(records, sequence, headers, AsWritten).Failure?
  {
    PrintToCsvMatchesReference(records, sequence, headers, AsWritten);
  }

  /** As intended (inferred, not documented), an empty string value is
      written as an empty cell. */
  lemma EmptyValueIsBlankAsIntended(records: seq<Entry>, sequence: Option<seq<string>>, headers: bool, j: nat, i: nat)
    requires Columns(records, sequence).Success?
    requires j < |records| && i < |Columns(records, sequence).value|
    requires records[j].Object?
    requires Find(records[j].members, Columns(records, sequence).value[i]) == Some(Str(""))
    ensures Acceptable(Find(records[j].members, Columns(records, sequence).value[i]), Intended)
    ensures var r := PrintToCsv(records, sequence, headers, Intended);
      var h := if WritesHeader(sequence, headers) then 1 else 0;
      r.Success? ==> r.value[h + j][i] == ""
  {
    PrintToCsvMatchesReference(records, sequence, headers, Intended);
  }

  /** When a call throws at an entry, the writer has already received exactly
      what a call over the entries before it would have written: the header,
      if any, and their rows. */
  lemma WrittenBeforeFailure(records: seq<Entry>, sequence: Option<seq<string>>, headers: bool, behaviour: Behaviour)
    requires Columns(records, sequence).Success?
    ensures var columns := Columns(records, sequence).value;
      var w := Write(records, sequence, headers, behaviour);
      w.failure.Some? ==>
        exists k :: 0 <= k < |records| &&
          DataRow(records[k], columns, behaviour, k) == Failure(w.failure.value) &&
          PrintToCsv(records[..k], Some(columns), WritesHeader(sequence, headers), behaviour) == Success(w.written)
  {
    if Write(records, sequence, headers, behaviour).failure.Some? {
      var k, columns, hw, h, written := FailingEntry(records, sequence, headers, behaviour);
      PrefixReproducesWritten(records, columns, hw, h, behaviour, k, written);
    }
  }

  /** The entry a failing call stops at, and what the writer holds by then:
      the optional header and the rows of every earlier entry. */
  lemma FailingEntry(records: seq<Entry>, sequence: Option<seq<string>>, headers: bool, behaviour: Behaviour)
    returns (k: nat, columns: seq<string>, hw: bool, h: nat, written: seq<Row>)
    requires Columns(records, sequence).Success?
    requires Write(records, sequence, headers, behaviour).failure.Some?
    ensures columns == Columns(records, sequence).value && hw == WritesHeader(sequence, headers)
    ensures written == Write(records, sequence, headers, behaviour).written
    ensures h == (if hw then 1 else 0)
    ensures k < |records| && DataRow(records[k], columns, behaviour, k) == Failure(Write(records, sequence, headers, behaviour).failure.value)
    ensures |written| == h + k && (hw ==> written[0] == columns)
    ensures forall j :: 0 <= j < k ==>
      DataRow(records[j], columns, behaviour, j).Success? && written[h + j] == DataRow(records[j], columns, behaviour, j).value
  {
    columns := Columns(records, sequence).value;
    var w := Write(records, sequence, headers, behaviour);
    hw := WritesHeader(sequence, headers);
    h := if hw then 1 else 0;
    written := w.written;
    assert Transcript(w, records, columns, behaviour, hw);
    k :| 0 <= k < |records| && DataRow(records[k], columns, behaviour, k).Failure? &&
      w.failure.value == DataRow(records[k], columns, behaviour, k).error && |w.written| == h + k;
  }

  /** The rows of the first `k` entries, after an optional header, are what a
      call over exactly those entries writes. */
  lemma PrefixReproducesWritten(records: seq<Entry>, columns: seq<string>, hw: bool, h: nat, behaviour: Behaviour,
                                k: nat, written: seq<Row>)
    requires h == (if hw then 1 else 0)
    requires k <= |records| && |written| == h + k
    requires hw ==> written[0] == columns
    requires forall j :: 0 <= j < k ==>
      DataRow(records[j], columns, behaviour, j).Success? && written[h + j] == DataRow(records[j], columns, behaviour, j).value
    ensures PrintToCsv(records[..k], Some(columns), hw, behaviour) == Success(written)
  {
    var prefix := records[..k];
    forall j | 0 <= j < |prefix|
      ensures DataRow(prefix[j], columns, behaviour, j).Success? &&
        written[h + j] == DataRow(prefix[j], columns, behaviour, j).value
    {
      assert prefix[j] == records[j];
    }
    RowsReproduceWritten(prefix, columns, hw, h, behaviour, written);
  }

  /** A call with explicit columns over entries whose rows all succeed writes
      exactly the optional header followed by those rows. */
  lemma RowsReproduceWritten(records: seq<Entry>, columns: seq<string>, hw: bool, h: nat, behaviour: Behaviour,
                             written: seq<Row>)
    requires h == (if hw then 1 else 0)
    requires |written| == h + |records|
    requires hw ==> written[0] == columns
    requires forall j :: 0 <= j < |records| ==>
      DataRow(records[j], columns, behaviour, j).Success? && written[h + j] == DataRow(records[j], columns, behaviour, j).value
    ensures PrintToCsv(records, Some(columns), hw, behaviour) == Success(written)
  {
    var r := PrintToCsv(records, Some(columns), hw, behaviour);
    assert Columns(records, Some(columns)) == Success(columns);
    assert r.Success? && |r.value| == |written|;
    forall j | 0 <= j < |written|
      ensures r.value[j] == written[j]
    {
      if j >= h {
        assert r.value[h + (j - h)] == DataRow(records[j - h], columns, behaviour, j - h).value;
      }
    }
    assert r.value == written;
  }

  // ---------------------------------------------------------------------------
  // A worked example: two entries, the second without column "b"
  // ---------------------------------------------------------------------------

  function ExampleRecords(): seq<Entry> {
    [ Object([Member("a", Str("1")), Member("b", Str("2"))]),
      Object([Member("a", Str("3"))]) ]
  }

  /** As written, the second entry throws for its missing "b", after the
      header and the first row have been written. */
  lemma ExampleAsWritten()
    ensures Write(ExampleRecords(), Some(["a", "b"]), true, AsWritten) ==
      Outcome([["a", "b"], ["1", "2"]], Some(MissingKey(1, "b")))
    ensures PrintToCsv(ExampleRecords(), Some(["a", "b"]), true, AsWritten) == Failure(MissingKey(1, "b"))
  {
    var records := ExampleRecords();
    ExampleRows(AsWritten);
    assert Cell(records[1].members, "b", AsWritten, 1) == Failure(MissingKey(1, "b"));
    assert Cells(records[1].members, ["a", "b"], AsWritten, 1) == Failure(MissingKey(1, "b"));
    var results := RowResults(records, ["a", "b"], AsWritten);
    assert results == [Success(["1", "2"]), Failure(MissingKey(1, "b"))];
    assert Collect(results[1..]) == Outcome([], Some(MissingKey(1, "b")));
  }

  /** As documented, the missing "b" is an empty cell. */
  lemma ExampleAsIntended()
    ensures PrintToCsv(ExampleRecords(), Some(["a", "b"]), true, Intended) ==
      Success([["a", "b"], ["1", "2"], ["3", ""]])
  {
    var records := ExampleRecords();
    ExampleRows(Intended);
    assert Cell(records[1].members, "b", Intended, 1) == Success("");
    assert ["a", "b"][1..] == ["b"] && ["b"][1..] == [];
    var empty: seq<string> := [];
    assert ["b"][1..] == empty && [""] + [] == [""] && ["3"] + [""] == ["3", ""];
    assert Cells(records[1].members, empty, Intended, 1) == Success([]);
    assert Cells(records[1].members, ["b"], Intended, 1) == Success([""]);
    assert Cells(records[1].members, ["a", "b"], Intended, 1) == Success(["3", ""]);
    var r := PrintToCsv(records, Some(["a", "b"]), true, Intended);
    assert DataRow(records[0], ["a", "b"], Intended, 0) == Success(["1", "2"]);
    assert DataRow(records[1], ["a", "b"], Intended, 1) == Success(["3", ""]);
    assert r.Success? && |r.value| == 3;
    assert r.value[0] == ["a", "b"] && r.value[1 + 0] == ["1", "2"] && r.value[1 + 1] == ["3", ""];
    assert r.value == [["a", "b"], ["1", "2"], ["3", ""]];
  }

  /** The rows of the example that do not depend on the behaviour. */
  lemma ExampleRows(behaviour: Behaviour)
    ensures Cells(ExampleRecords()[0].members, ["a", "b"], behaviour, 0) == Success(["1", "2"])
    ensures Cell(ExampleRecords()[1].members, "a", behaviour, 1) == Success("3")
  {
    var records := ExampleRecords();
    assert ["a", "b"][1..] == ["b"] && ["b"][1..] == [];
    assert Find(records[0].members, "a") == Some(Str("1"));
    assert Find(records[0].members, "b") == Some(Str("2"));
    assert Find(records[1].members, "a") == Some(Str("3"));
    assert Find(records[1].members, "b") == None;
    assert Normalize("1", behaviour) == Success("1");
    assert Normalize("2", behaviour) == Success("2");
    assert Normalize("3", behaviour) == Success("3");
    assert Cell(records[0].members, "b", behaviour, 0) == Success("2");
    var empty: seq<string> := [];
    assert Cells(records[0].members, empty, behaviour, 0) == Success([]);
    assert ["b"][1..] == empty;
    assert ["2"] + [] == ["2"];
    assert Cells(records[0].members, ["b"], behaviour, 0) == Success(["2"]);
    assert ["1"] + ["2"] == ["1", "2"];
  }
}
