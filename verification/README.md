# JsonUtil CSV projection, modelled in Dafny

`util.JsonUtil` is a small Java utility class around JSON-P and opencsv. Its
only logic of its own is `printToCsv`: it takes a JSON array of objects, an
optional column sequence and a `headers` flag. From them it produces the rows
of string cells that it hands to an opencsv `CSVWriter`. This project models
that projection and its two convenience overloads. It covers:

- column resolution: the caller's sequence, or else the first entry's keys in
  that entry's order;
- the header rule: a header is forced when no sequence is given;
- row construction: one row per entry, one cell per column;
- the quote rule: a value that opens with `"` loses its first and last
  characters;
- every way the call can throw.

Files:

- `wrappers.dfy`: `Option` (the model's `null`) and `Result` (a value or the
  exception thrown).
- `json_values.dfy`: the part of the JSON object model the projection reads.
  An entry is an object, with its members in insertion order, or some other
  value. A member value is a string or some other value. `Find` is lookup by
  key and `Keys` is the key set in order. A JSON-P object maps each key to one
  value, so its members never repeat a key. The `Object` constructor does not
  enforce this. Every lemma that depends on it says so with `UniqueKeys`, and
  every other lemma holds even when keys repeat. With repeated keys, `Find`
  returns the first member with that key.
- `csv_projection.dfy`: the projection itself. `Write` returns everything
  handed to the writer, plus the exception the call ends with, if any.
  `PrintToCsv` is the all-or-nothing view of it: the rows, or the exception.
  `PrintToCsvWithHeader` and `PrintToCsvInOrder` are the two- and
  three-argument overloads.
- `csv_properties.dfy`: a cell-by-cell reference definition of the result
  (`Acceptable`, `Expected`, `AllAcceptable`), a proof that the projection
  matches it, and lemmas for the column, header, row, cell and failure rules.

The code contradicts its doc-comments on one input, a column absent from an
entry. On a second input, an empty string value, it departs from an intent
that is inferred rather than documented (see "## Findings"). So every entry
point takes a `Behaviour`:

- `AsWritten` does what the code does. A column absent from an entry throws,
  because JSON-P's `JsonObject.getString(name)` throws for an unmapped name,
  which leaves the `value != null` test on line 206 dead. An empty string value
  also throws, at `charAt(0)`.
- `Intended` is the corrected behaviour, and both of those inputs give an
  empty cell. For an absent column this is what the doc-comments promise
  (lines 146-147, 158-159 and 172-173). For an empty string value the
  doc-comments say nothing. The empty cell is inferred: the quote rule has no
  quote to strip from "", so "" is the only cell consistent with it.

All general lemmas are proved for both behaviours. Lemmas whose names end in
`AsWritten` or `AsIntended` state where the two differ. A value that is
exactly one `"` throws in both behaviours (`substring(1, 0)`): nothing in the
source says what it should do instead.

## Model

| member | source | states |
|---|---|---|
| `JsonValues.Find` | src/util/JsonUtil.java:205 | A lookup finds a value exactly when the key is one of the object's keys. A found value is stored under that key. Nothing is found when no member has the key. |
| `JsonValues.FindUnique` | src/util/JsonUtil.java:190 | In an object with unique keys, looking up any member's key gives that member's value. |
| `JsonValues.FindAppend` | src/util/JsonUtil.java:205 | Adding a member under a different key never changes what a lookup finds. |
| `CsvProjection.Normalize` | src/util/JsonUtil.java:206-207 | A value opening with `"` of length ≥ 2 becomes its middle: exactly 2 characters shorter, with the original being `"` + result + its last character. Any other non-empty value is unchanged. A lone `"` throws. An empty value throws as written and gives an empty cell as intended. |
| `CsvProjection.Columns` | src/util/JsonUtil.java:189-194 | With a sequence, the columns are that sequence. Without one, an empty array throws `EmptyArray`, a non-object first entry throws `NotAnObject(0)`, and otherwise the columns are the first entry's keys in order. |
| `CsvProjection.WritesHeader` | src/util/JsonUtil.java:189-198 | Without a sequence, a header is always written. With one, a header is written exactly when `headers` is true. |
| `CsvProjection.Cells` | src/util/JsonUtil.java:204-208 | A row succeeds exactly when every column's cell does. It then has one cell per column, and cell i is the cell of column i. On failure, the error is that of the first failing column. |
| `CsvProjection.Collect` | src/util/JsonUtil.java:201-210 | Rows are written in entry order until the first entry that throws. With no failure, every row is written. With a failure, exactly the rows before the failing entry are written. |
| `CsvProjection.Write` | src/util/JsonUtil.java:182-211 | When column resolution throws, nothing is written. Otherwise the header, if written, comes first and equals the columns, followed by the rows of the entries before the first failing one. The call completes exactly when every entry's row succeeds, and then writes one row per entry. |
| `CsvProjection.PrintToCsv` | src/util/JsonUtil.java:182-211 | Succeeds exactly when the columns resolve and every entry's row succeeds. The row count is then the entry count plus one when a header is written. The header equals the columns. Data row j has one cell per column and is entry j's row. A failure is the column error or the first failing entry's error. |
| `CsvProjection.PrintToCsvWithHeader` | src/util/JsonUtil.java:153-155 | The two-argument form always writes a header equal to the first entry's keys, then one row per entry, each as wide as the first entry. It throws on an empty array. |
| `CsvProjection.PrintToCsvInOrder` | src/util/JsonUtil.java:160-169 | With a null sequence, the three-argument form is the two-argument form: derived columns and a header. With a sequence, it writes no header: exactly one row per entry, each with one cell per column of the sequence. |
| `CsvProperties.CellMatchesReference` | src/util/JsonUtil.java:205-207 | A cell succeeds exactly when the reference rule `Acceptable` holds of the lookup, and it then equals the reference cell `Expected`. |
| `CsvProperties.CellRules` | src/util/JsonUtil.java:205-207 | An absent key throws `MissingKey` as written and gives "" as intended. A non-string value throws `NotAString`. A non-empty string not opening with `"` is the cell unchanged, and one of length ≥ 2 opening with `"` loses 2 characters. Every exception names the entry and the key it arose at. |
| `CsvProperties.DataRowRules` | src/util/JsonUtil.java:203-208 | A non-object entry throws `NotAnObject` for its own index. A row that succeeds has one cell per column. Every exception a row throws names that entry. |
| `CsvProperties.RowMatchesReference` | src/util/JsonUtil.java:202-208 | A row succeeds exactly when the entry is an object and every column is acceptable. Its cell i is then the reference cell of column i. |
| `CsvProperties.PrintToCsvMatchesReference` | src/util/JsonUtil.java:182-211 | The whole call succeeds exactly when every entry is an object (even with no columns) and every looked-up value is acceptable. The rows are then the optional header followed by the reference cells of every entry, in order. |
| `CsvProperties.DerivedColumnsAreFirstEntryKeys` | src/util/JsonUtil.java:189-191 | Without a sequence, a successful call writes a header equal to the first entry's keys in order, and one more row than there are entries. An empty array throws `EmptyArray` and a non-object first entry throws `NotAnObject(0)`, in both cases before anything is written: the writer receives nothing. |
| `CsvProperties.HeaderForcedWithoutSequence` | src/util/JsonUtil.java:191 | Without a sequence, `headers = false` and `headers = true` give the same outcome. |
| `CsvProperties.FirstEntryReadsItsOwnMembers` | src/util/JsonUtil.java:190 | Under derived columns, the first entry never misses a column. Its cell i comes from its i-th member. |
| `CsvProperties.ExplicitColumnsAreTheSequence` | src/util/JsonUtil.java:192-198 | With a sequence, the columns are exactly that sequence whatever the entries hold. A header equal to it is written only when asked for, and every data row has one cell per column. |
| `CsvProperties.WithHeaderIsNullSequence` | src/util/JsonUtil.java:153-155 | The two-argument form equals the four-argument form with a null sequence, whatever the `headers` flag. |
| `CsvProperties.InOrderWritesNoHeader` | src/util/JsonUtil.java:167-169 | The three-argument form's rows are the data rows alone. Row j, cell i is the reference cell of entry j, column i. |
| `CsvProperties.InOrderNullSequenceWritesHeader` | src/util/JsonUtil.java:160-168 | A null sequence to the three-argument form writes a header of the first entry's keys even though it passes `headers = false`. An empty array throws `EmptyArray`. |
| `CsvProperties.StringCellIsNormalized` | src/util/JsonUtil.java:205-207 | In a successful call, a string value opening with `"` is written 2 characters shorter, without its first and last characters. Any other string value is written unchanged. |
| `CsvProperties.NormalizeUnquotes` | src/util/JsonUtil.java:206 | The quote rule undoes one level of double quoting: `"` + t + `"` becomes t. |
| `CsvProperties.NormalizeDropsAnyLastCharacter` | src/util/JsonUtil.java:206 | An illustration of `Normalize`'s third postcondition, which covers every last character: the rule checks only the first character, so `"ab` becomes `a`. |
| `CsvProperties.RowDependsOnlyOnColumns` | src/util/JsonUtil.java:204-208 | Two objects that agree on the lookup of every column give the same row or the same exception. |
| `CsvProperties.ExtraKeysIgnored` | src/util/JsonUtil.java:158-160 | Adding a member whose key is not a column leaves the row unchanged. |
| `CsvProperties.NonObjectFails` | src/util/JsonUtil.java:203 | An entry that is not an object fails the call, even when there are no columns. |
| `CsvProperties.NonStringFails` | src/util/JsonUtil.java:205 | A column whose value is not a string fails the call. |
| `CsvProperties.LoneQuoteFails` | src/util/JsonUtil.java:206 | A value that is exactly `"` fails the call. |
| `CsvProperties.MissingKeyFailsAsWritten` | src/util/JsonUtil.java:205 | As written, a column absent from an entry fails the call. |
| `CsvProperties.MissingKeyIsBlankAsIntended` | src/util/JsonUtil.java:158-159 | As intended by the doc-comments, an absent column is acceptable and its cell is the empty string. |
| `CsvProperties.EmptyValueFailsAsWritten` | src/util/JsonUtil.java:206 | As written, an empty string value fails the call. |
| `CsvProperties.EmptyValueIsBlankAsIntended` | src/util/JsonUtil.java:206-207 | As intended (inferred, not documented), an empty string value is acceptable and its cell is the empty string. |
| `CsvProperties.FailingEntry` | src/util/JsonUtil.java:201-210 | A failing call stops at an entry whose row throws the call's exception. The writer then holds the optional header, equal to the columns, and the rows of every earlier entry, in order. |
| `CsvProperties.WrittenBeforeFailure` | src/util/JsonUtil.java:197-210 | When an entry throws, the writer has already received exactly what a successful call over the entries before it writes: the header, if any, and their rows. |
| `CsvProperties.ExampleAsWritten` | src/util/JsonUtil.java:201-209 | For `[{"a":"1","b":"2"},{"a":"3"}]` with columns `a,b` and headers, the header and `1,2` are written. Then the call throws `MissingKey(1, "b")`. |
| `CsvProperties.ExampleAsIntended` | src/util/JsonUtil.java:172-173 | For the same input, the intended result is the rows `a,b`, `1,2` and `3,""`. |

## Left out

- `difference`, `merge`, `toJson`, `format` and `prettyPrint` (src/util/JsonUtil.java:52-142) hand all their work to JSON-P. That is RFC 6902 diff generation, RFC 7396 merge patches, parsing and pretty printing. No algorithm of this repository is left to model there.
- opencsv's `CSVWriter`: its construction, its quoting and escaping, and how `writeNext` turns cells into text. A written row is the sequence of unescaped cells handed to `writeNext`.
- The `Writer` sink and the `Objects.requireNonNull` checks (lines 183-184). The model's types cannot express a null array or writer. A null sequence is modelled (`None`) in both forms that take one. Buffering, flushing and I/O errors of the writer are not modelled.
- A null element inside the caller's `String[]` sequence cannot be expressed: `seq<string>` has no null.
- Copying the sequence (`sequence.clone()`, line 193) protects against later changes by the caller. Dafny sequences are immutable values, so this needs no separate statement.
- JSON numbers, booleans, null, objects and arrays are one case, `NonStr`. The projection never reads them and throws on all of them alike.
- A "derive columns from all records" mode does not exist in `printToCsv`, so it is not modelled.
- The code does not treat a missing field as an empty cell, and it does not fail all-or-nothing. A missing key throws. When an entry throws, the header and the earlier rows have already been written. `Write` models that, and `PrintToCsv` is the all-or-nothing view of the same outcome.
- test/JsonUtilTest.java adds nothing to model. Its CSV test calls a `writeToCsv` method that does not exist and asserts nothing. Its other tests pin JSON-P output.

- CsvProjection.Normalize, CsvProperties.StringCellIsNormalized, CsvProperties.CellRules: text is modelled as a sequence of Unicode characters, while Java strings are sequences of UTF-16 code units. The two agree except when a quoted value ends in a character outside the Basic Multilingual Plane. Java's `substring(1, length() - 1)` then removes only the low surrogate and keeps a lone high surrogate, which a Dafny `char` cannot hold. For example, `"x` followed by U+1F600 gives `x` followed by `\uD83D` in Java and `x` in the model. "2 characters shorter" and "loses 2 characters" count characters, not UTF-16 code units.

## Findings

| source | as written | input that shows it | evidently intended | confidence | as-written member | corrected member |
|---|---|---|---|---|---|---|
| src/util/JsonUtil.java:205 | `object.getString(key)` throws for a key absent from the entry, so the `value != null` test on line 206 never sees null | entries `[{"a":"1","b":"2"},{"a":"3"}]`, sequence `["a","b"]` | an empty cell for the absent key, as the doc-comments at lines 146-147 and 158-159 say | high; not executed | `CsvProperties.MissingKeyFailsAsWritten` | `CsvProperties.MissingKeyIsBlankAsIntended` |
| src/util/JsonUtil.java:206 | `value.charAt(0)` throws on an empty string value | entries `[{"a":""}]`, sequence `["a"]` | an empty cell, inferred rather than documented: the doc-comments never mention empty values, and an empty value has no quote to strip | medium; not executed | `CsvProperties.EmptyValueFailsAsWritten` | `CsvProperties.EmptyValueIsBlankAsIntended` |
