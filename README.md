# Grouping product records by their attribute combination

`parser.php` reads product rows from CSV, JSON or XML, checks that the header
holds the seven required attributes (`brand_name`, `model_name`,
`colour_name`, `gb_spec_name`, `network_name`, `grade_name`,
`condition_name`), and groups the rows by those attributes. The match is
case-insensitive and ignores surrounding whitespace. It then writes one row per
distinct combination, with the number of input rows that carried it, in
the chosen format.

This project models that pipeline in Dafny, from the parsed input to the
unserialised output:

- `php_strings.dfy`: the PHP built-ins the script relies on. These are
  `trim` with its default character list, ASCII `strtolower`, `implode`,
  and the decimal rendering of an integer.
- `fields.dfy`: the seven-field constant. The script spells the list out
  twice, as `$requiredFields` and as `$groupFields`; the two are identical.
  Also `validateRequiredFields`, which returns an outcome value where the
  script throws.
- `records.dfy`: turning a positional data row into a header-keyed record
  of trimmed values, and the group key of a record. Both are written as the
  script's loops (`BuildRecord`, `MakeKey`) and proved against pure
  definitions.
- `aggregation.dfy`: the insertion-ordered array `$combinations`. It is
  modelled as a key sequence beside a map. The loop over the data rows is
  proved equal to a prefix-recursive definition. The counting facts are
  proved about that definition: every count is positive, counts sum to the
  number of rows, the first writer wins, and entries appear in order of
  first occurrence.
- `writers.dfy`: the CSV, JSON and XML writers. Each projects an entry onto
  the seven fields in order plus `count`, with `''` for absent fields.
  Each is a loop proved against a definition, with a lemma that the three
  formats agree.
- `roundtrip.dfy`: reading the CSV output back and grouping it again
  reproduces the same combinations, in order, each with count 1.
- `pipeline.dfy`: validation, then grouping, then the writer selected by
  the format.

The exit after a failed validation (parser.php:47-49, 66-68, 101-103)
becomes a `Failure` value carrying the echoed line. The script's other
`exit(1)` paths belong to the command line and the readers, which are
listed under Left out. The reader's output
`(header, data)` is the model's input. Strings are `seq<char>`.

## Behaviour worth knowing

- A new group entry is created with count 0 and then incremented
  (parser.php:142-145). The effect is the same as creating it with count 1.
- An entry stores the whole first record `$product` (parser.php:143), not
  only its seven group values. Fields outside the seven are carried along
  but never written.
- The key joins the normalised values with `|` (parser.php:140). Equal
  normalised values always give equal keys. Equal keys imply equal
  normalised values only when no group value contains `|`, and
  `Records.SameKeySameValues` is proved under that condition.
- Validation asks only for the seven fields (parser.php:23-28). A header
  may carry more columns, and the written CSV header, whose eighth column
  is `count`, passes again when it is read back.
- With JSON or XML input the readers stop before validation when there are
  no rows: an empty JSON array ends with `Invalid JSON.` (parser.php:55-57),
  and an XML document without `<row>` ends with `Empty XML data.`
  (parser.php:93-96). Only CSV input reaches the writers with zero rows.

## Model

| member | source | states |
|---|---|---|
| PhpStrings.TrimLeft | parser.php:133 | definition of the leading half of `trim` over the default list (space, tab, newline, carriage return, NUL, vertical tab); its properties are `PhpStrings.TrimLeftSpec` |
| PhpStrings.TrimRight | parser.php:133 | definition of the trailing half of `trim`; its properties are `PhpStrings.TrimRightSpec` |
| PhpStrings.Trim | parser.php:133 | definition of `trim` as both halves; its properties are `PhpStrings.TrimSpec`, `PhpStrings.TrimNoNewChar` and `PhpStrings.TrimIdempotent` |
| PhpStrings.TrimLeftSpec | parser.php:133 | the leading part of `trim` keeps a suffix, drops only default trim characters, and leaves none in front |
| PhpStrings.TrimRightSpec | parser.php:133 | the trailing part of `trim` keeps a prefix, drops only default trim characters, and leaves none at the end |
| PhpStrings.TrimSpec | parser.php:133 | `trim` never lengthens, leaves no default trim character at either end, and leaves a string without any unchanged |
| PhpStrings.TrimNoNewChar | parser.php:133 | `trim` introduces no character its argument lacks |
| PhpStrings.TrimIdempotent | parser.php:138 | trimming an already trimmed value (as the key loop does with record values) changes nothing |
| PhpStrings.LowerChar | parser.php:138 | an ASCII capital becomes its own small letter (code point plus 32), every other character is unchanged |
| PhpStrings.ToLower | parser.php:138 | `strtolower` keeps the length and maps every character through `PhpStrings.LowerChar` |
| PhpStrings.LowerCharEqual | parser.php:138 | two characters lower-case alike exactly when they are equal up to ASCII case |
| PhpStrings.ToLowerEqual | parser.php:138 | two strings lower-case alike exactly when they have the same length and agree position by position up to ASCII case |
| PhpStrings.ToLowerNoNewChar | parser.php:138 | `strtolower` introduces no character outside `a`-`z` that its argument lacks |
| PhpStrings.Join | parser.php:140 | definition of `implode`; its property is `PhpStrings.JoinInjective`, and `Fields.MissingGradeNameMessage` evaluates it |
| PhpStrings.JoinInjective | parser.php:140 | `implode` with a one-character separator loses no information on lists of the same length when no part contains the separator |
| PhpStrings.NatToString | parser.php:186 | the count is written as a non-empty string of decimal digits with no leading zero unless it is 0 |
| PhpStrings.DigitsValue | parser.php:186 | definition of the number a digit string denotes; used by `PhpStrings.NatToStringValue` |
| PhpStrings.NatToStringValue | parser.php:186 | the written digits denote exactly the count |
| Fields.GroupFieldsDistinct | parser.php:117-125 | the seven group fields are pairwise distinct |
| Fields.Missing | parser.php:24 | `array_diff` keeps exactly the required names absent from the header, in required order, and without repeats when the required list has none |
| Fields.ValidateRequiredFields | parser.php:23-28 | validation fails if and only if some required field is absent, and then names exactly the absent fields in required order |
| Fields.ErrorMessage | parser.php:26 | definition of the exception text, `Missing required fields: ` followed by the missing names joined with `, `; `Fields.MissingGradeNameMessage` evaluates it |
| Fields.MissingGradeName | parser.php:23-37 | every header that holds the six other fields but not `grade_name` fails, naming exactly `grade_name` |
| Fields.MissingGradeNameMessage | parser.php:26 | the exception text for that case is `Missing required fields: grade_name` |
| Fields.SupersetPasses | parser.php:23-28 | any header holding all seven fields passes, whatever else it holds and in any order |
| Records.Cell | parser.php:133 | definition of `$row[$i] ?? ''` for a row of strings; used by `Records.RecordLookup` |
| Records.Get | parser.php:138 | definition of `$product[$field] ?? ''`; its values are covered by `Records.RecordLookup` and `Records.RecordTrimmed` |
| Records.RecordPrefix | parser.php:131-134 | definition of the record after the first n header positions; its properties are `Records.PrefixValue` and `Records.PrefixTrimmed` |
| Records.PrefixTrimmed | parser.php:133 | every value stored after n header positions is already trimmed |
| Records.RecordOf | parser.php:130-134 | definition of `$product` for a data row; its properties are `Records.RecordLookup`, `Records.RecordKeys` and `Records.RecordTrimmed`, and `Records.BuildRecord` is proved to compute it |
| Records.PrefixValue | parser.php:132-133 | after the first n header positions, each name maps to the trimmed cell of its last position so far |
| Records.RecordLookup | parser.php:132-133 | the record maps a header name to the trimmed cell of its last position, and a position past the row's end gives `''` |
| Records.RecordKeys | parser.php:132-133 | the record's fields are exactly the header's names |
| Records.RecordTrimmed | parser.php:133 | every value read from a record, present or defaulted to `''`, is already trimmed |
| Records.BuildRecord | parser.php:131-134 | the inner loop builds exactly the record of the row |
| Records.KeyParts | parser.php:136-139 | the key parts are the seven trimmed, lower-cased field values in group-field order, `''` for an absent field |
| Records.GroupKey | parser.php:136-140 | definition of the key: the parts of `Records.KeyParts` joined with the key delimiter; its properties are `Records.SameValuesSameKey` and `Records.SameKeySameValues`, and `Records.MakeKey` is proved to compute it |
| Records.SameValuesSameKey | parser.php:136-140 | records whose seven values agree after trimming and lower-casing get the same key |
| Records.SameKeySameValues | parser.php:136-140 | conversely, equal keys mean agreeing normalised values, provided no group value contains the key delimiter |
| Records.MakeKey | parser.php:136-140 | the key loop and `implode` compute the group key of the record |
| Aggregation.Entries | parser.php:155 | `foreach` over the combinations visits each listed key's entry in insertion order |
| Aggregation.Admit | parser.php:142-144 | the key is present afterwards; `Aggregation.AdmitListed` and `Aggregation.AdmitSum` state the rest |
| Aggregation.Bump | parser.php:145 | definition of `count++`; its property is `Aggregation.BumpSum` |
| Aggregation.Insert | parser.php:142-145 | definition of one loop step as `Aggregation.Admit` then `Aggregation.Bump`; `Aggregation.CountRow` is proved to perform it |
| Aggregation.AggregateKeyed | parser.php:128-146 | definition of `$combinations` after a prefix of the rows, starting from the empty `Aggregation.Empty` (parser.php:128); its properties are `Aggregation.AggregateValid`, `Aggregation.AggregateCounts`, `Aggregation.AggregateFirstWins`, `Aggregation.AggregateOrder` and `Aggregation.AggregateSum` |
| Aggregation.Keyed | parser.php:130-140 | each data row is paired with its group key and its record, in row order |
| Aggregation.Aggregate | parser.php:128-146 | the grouped result keeps order and map in step, lists each key once, and has every count at least 1 |
| Aggregation.AggregateValid | parser.php:142-145 | the same invariant holds after every prefix of the rows |
| Aggregation.AggregateCounts | parser.php:142-145 | the entries are exactly the keys of the consumed rows, each counted as often as it occurs |
| Aggregation.AggregateFirstWins | parser.php:142-144 | each entry holds the record of the first row with its key, never replaced by a later one |
| Aggregation.AggregateOrder | parser.php:142-143 | entries are listed in the order their keys first occur |
| Aggregation.AdmitListed | parser.php:142-144 | inserting a new key appends it to the end of the order, an existing key leaves the state unchanged, and order and map stay in step |
| Aggregation.AdmitSum | parser.php:143 | a new entry starts at count 0, leaving the total unchanged |
| Aggregation.BumpSum | parser.php:145 | `count++` adds exactly one to the total |
| Aggregation.AggregateSum | parser.php:130-146 | the counts add up to the number of rows consumed |
| Aggregation.AggregateSize | parser.php:142-143 | there are never more entries than rows |
| Aggregation.AggregateDistinct | parser.php:142-145 | rows with pairwise different keys give one entry each, in row order, each with count 1 |
| Aggregation.AggregateOneKey | parser.php:142-145 | rows all with one key give a single entry holding the first row's record, counted once per row |
| Aggregation.CaseVariantsCollapse | parser.php:130-146 | rows differing only in casing or surrounding whitespace of group values collapse into one entry with the first row's casing and a count equal to the number of rows |
| Aggregation.CountsIgnoreOrder | parser.php:130-146 | keyed rows whose keys occur equally often give the same set of keys and the same counts, whatever their order |
| Aggregation.GroupKeysPermutation | parser.php:136-140 | data rows that are a permutation of each other carry every key equally often |
| Aggregation.AggregatePermutation | parser.php:130-146 | shuffling the data rows leaves the set of keys and every count unchanged |
| Aggregation.GroupKeys | parser.php:136-140 | the group key of every data row, in row order |
| Aggregation.AggregateTotals | parser.php:128-146 | on parsed input, every count is at least 1, counts sum to the number of data rows, and there are at most that many entries |
| Aggregation.AggregateEntryCounts | parser.php:142-145 | on parsed input, a key has an entry iff some data row has that key, and its count is the number of such rows |
| Aggregation.AggregateEntryFields | parser.php:142-144 | on parsed input, an entry stores the record of the first data row with its key, in original casing, and that record's key is the entry's key |
| Aggregation.AggregateEntryOrder | parser.php:142-143 | on parsed input, entries are ordered by the first data row carrying their key |
| Aggregation.CountRow | parser.php:142-145 | the insert-if-absent-then-increment update performs one `Insert` step |
| Aggregation.AggregateRows | parser.php:128-146 | the loop over the data rows computes the grouped result |
| Writers.Render | parser.php:186 | definition of a cell's text: a field's value as stored, the count in decimal; `PhpStrings.NatToStringValue` states that the digits denote the count |
| Writers.HeaderLine | parser.php:152-153 | the header line is the output header `Writers.OutputHeader`, the seven group fields then `count`, one cell per name |
| Writers.RowValues | parser.php:156-160 | definition of an output row; its properties are `Writers.RowValuesSpec` |
| Writers.RowValuesSpec | parser.php:156-160 | an output row is the seven fields' stored values in group-field order, `''` when absent, then the count |
| Writers.CsvDocument | parser.php:152-162 | the CSV is the header `groupFields` plus `count`, then one line per entry in insertion order |
| Writers.CsvLine | parser.php:156-160 | the `$rowOut` loop builds the entry's output row |
| Writers.WriteCsv | parser.php:152-162 | the CSV writer's loops produce the CSV document |
| Writers.JsonRow | parser.php:169-173 | definition of one JSON object, each output column name paired with the row's cell; `Writers.JsonLine` is proved to compute it and `Writers.FormatsAgree` relates it to the CSV line |
| Writers.JsonDocument | parser.php:167-175 | the JSON array holds one object per entry in insertion order |
| Writers.JsonLine | parser.php:169-173 | the `$row` loop builds the entry's JSON object |
| Writers.WriteJson | parser.php:167-175 | the JSON writer's loop produces the JSON document |
| Writers.XmlRow | parser.php:182-186 | definition of one `<row>`, a child per output column holding the rendered cell; `Writers.XmlLine` is proved to compute it and `Writers.FormatsAgree` relates it to the CSV line |
| Writers.XmlDocument | parser.php:180-187 | `<rows>` holds one `<row>` per entry in insertion order |
| Writers.XmlLine | parser.php:182-186 | the `addChild` loop builds the entry's `<row>` |
| Writers.WriteXml | parser.php:180-187 | the XML writer's loop produces the XML document |
| Writers.FormatsAgree | parser.php:155-186 | the i-th JSON object and i-th XML row carry the column names and cells of the i-th CSV data line |
| RoundTrip.ReadLine | parser.php:42 | each re-read cell is the text of the written cell; this models `str_getcsv` only under the assumption on the `RoundTrip.CsvRoundTrip` line under Left out, that it inverts `fputcsv` |
| RoundTrip.ReadData | parser.php:44 | the re-read data rows are the written lines after the header, as `array_slice($rows, 1)`; this models the reader only under the same assumption |
| RoundTrip.OutputHeaderDistinct | parser.php:152 | the output header names each column once |
| RoundTrip.RereadRow | parser.php:130-140 | re-reading an output row gives a record with the same group values and the same key |
| RoundTrip.RereadKeys | parser.php:130-140 | the re-read rows' keys are the written entries' keys, in order |
| RoundTrip.RegroupOrder | parser.php:130-146 | grouping the re-read output keeps the entries in the same order, each with count 1 |
| RoundTrip.RegroupValues | parser.php:142-144 | each re-grouped entry keeps the group values it was written with |
| RoundTrip.AggregateWellKeyed | parser.php:128-146 | every grouped entry is keyed by its own record and holds trimmed values |
| RoundTrip.CsvRoundTrip | parser.php:130-162 | writing the CSV, reading it back and grouping again passes validation and reproduces the same order with count 1 each |
| Pipeline.ErrorLine | parser.php:48 | definition of the echoed line `Error: ` plus the exception text plus a newline; `Pipeline.Run` states when it is produced |
| Pipeline.Output | parser.php:149-190 | definition of the choice of writer by format; `Pipeline.Run` states that a successful run yields it |
| Pipeline.Run | parser.php:40-190 | the run fails with `Error: Missing required fields: ...` iff a required field is missing, and otherwise yields the chosen writer's document for the grouped rows |
| Pipeline.OutputLine | parser.php:155-161 | each CSV data line shows the first matching row's values (`''` for fields the header lacks) and the number of rows with its key |
| Pipeline.EmptyInput | parser.php:128-162 | with no data rows there are no entries and the CSV writer emits only the header line; the JSON and XML frames it also states are never reached, because those readers reject empty input |

## Left out

- Command-line handling (parser.php:3-21, 107-110) is not modelled. This covers `getopt`, the required-flag check, the missing-file check and the unsupported-format message. The format is an enum, so an unsupported format cannot arise.
- File and console I/O is left out because it is side effects, not logic. This covers `file`, `file_get_contents`, `fopen`/`fputcsv`/`fclose`, `file_put_contents`, `asXML`, `echo` and the exit status. `Pipeline.Run` returns the document or the error line instead.
- Pipeline.EmptyInput: its JSON `[]` and empty `<rows>` cases describe states the script never reaches. The JSON and XML readers reject input without rows before validation (parser.php:55-57, 93-96), and those readers are not modelled.
- Pipeline.Run: it takes the reader's output as given, so `Run(Json, header, [])` and `Run(Xml, header, [])` succeed where the script stops with `Invalid JSON.` or `Empty XML data.` before validation.
- The readers are not modelled: `str_getcsv`, `json_decode` with its `Invalid JSON.` check, and SimpleXML parsing with its two XML error messages (parser.php:42-44, 54-63, 73-98). They are library code. The model starts from their output `(header, data)`.
- The XML reader's header derivation through `array_keys((array) $row)` (parser.php:88) is not modelled, because it depends on SimpleXML's object-to-array cast.
- Serialisation is not modelled: `fputcsv` quoting, `json_encode` with `JSON_PRETTY_PRINT`, and XML text rendering. Each writer's output is the value handed to its serialiser.
- `htmlspecialchars` (parser.php:184) is not modelled. XML field text is the unescaped stored value, because the escaping is library code.
- `RoundTrip.CsvRoundTrip`: the re-read header is taken to be the written header. It is not proved that the reader's `trim` leaves the eight header names unchanged. Cells are assumed to read back as written, that is, `str_getcsv` is taken to invert `fputcsv`. With PHP's default escape character `\` that is not so in general: a value ending in a backslash, such as `X\`, is written as `"X\"`, and reading it back takes `\"` as an escaped quote, so the cell runs on into the next one. Such a value can reach the output from CSV input (parser.php:42, 133).
- `Records.SameKeySameValues`: the converse of key equality is proved only when no group value contains `|`. No concrete colliding pair of records is exhibited.
- PHP arrays turn numeric-string keys such as `"42"` into integers. This changes neither key equality nor insertion order, so keys stay strings here.
- A CSV cell can be `null` (parser.php:133 maps it to `''` through `??`). The model's rows hold strings only, so `Records.Cell` covers only the past-the-end case.
- PHP strings are byte strings. Characters are modelled as Unicode scalars; multibyte characters are never touched by ASCII `trim` and `strtolower`.
- `$fieldMap` (parser.php:114) is computed but never used.
- The success message `Grouped results written to ...` (parser.php:192) is console output.

