/**
 * The script from the parsed input to the written document: validate the
 * header, group the rows, and hand the combinations to the writer of the
 * chosen format (parser.php:40-190).
 */
module Pipeline {
  import opened Outcomes
  import opened Fields
  import opened Records
  import opened Aggregation
  import opened Writers

  /** The three supported values of `--format`. */
  datatype Format = Csv | Json | Xml

  /** What each writer produces before serialisation. */
  datatype Document =
    | CsvLines(lines: seq<seq<Value>>)
    | JsonRows(rows: seq<seq<(string, Value)>>)
    | XmlTree(xml: Xml)

  /** The document the writer of `format` produces for `c`. */
  function Output(format: Format, c: Combinations): Document
    requires Covered(c)
  {
    match format
    case Csv => CsvLines(CsvDocument(c))
    case Json => JsonRows(JsonDocument(c))
    case Xml => XmlTree(XmlDocument(c))
  }

  /** The line the script echoes before `exit(1)` when validation throws. */
  function ErrorLine(e: ValidationError): string {
    "Error: " + ErrorMessage(e) + "\n"
  }

  /** Validation, then grouping, then writing. The run stops with the
      error line exactly when a required field is missing from the header;
      otherwise it writes the grouped rows in the chosen format. */
  method Run(format: Format, header: seq<string>, data: seq<seq<string>>) returns (r: Result<Document, string>)
    ensures r.Failure? <==> exists f :: f in GroupFields && f !in header
    ensures r.Failure? ==> r.error == ErrorLine(MissingFields(Missing(GroupFields, header)))
    ensures r.Success? ==> r.value == Output(format, Aggregate(header, data))
  {
    var check := ValidateRequiredFields(header, GroupFields);
    if check.Fail? {
      return Failure(ErrorLine(check.error));
    }
    var combinations := AggregateRows(header, data);
    var document;
    match format {
      case Csv =>
        var lines := WriteCsv(combinations);
        document := CsvLines(lines);
      case Json =>
        var rows := WriteJson(combinations);
        document := JsonRows(rows);
      case Xml =>
        var xml := WriteXml(combinations);
        document := XmlTree(xml);
    }
    r := Success(document);
  }

  /** The `i`-th CSV data line shows, for each group field, the value the
      first data row with that line's key gave the field (`''` when the
      header lacks it), and then the number of rows with that key. */
  lemma OutputLine(header: seq<string>, data: seq<seq<string>>, i: nat, k: nat)
    requires i < |Aggregate(header, data).order| && k < |GroupFields|
    ensures Aggregate(header, data).order[i] in GroupKeys(header, data)
    ensures CsvDocument(Aggregate(header, data))[i + 1][k] ==
      Text(Get(RecordOf(header, data[FirstIndex(GroupKeys(header, data), Aggregate(header, data).order[i])]),
               GroupFields[k]))
    ensures CsvDocument(Aggregate(header, data))[i + 1][|GroupFields|] ==
      Number(multiset(GroupKeys(header, data))[Aggregate(header, data).order[i]])
    ensures GroupFields[k] !in header ==> CsvDocument(Aggregate(header, data))[i + 1][k] == Text("")
  {
    var c := Aggregate(header, data);
    var key := c.order[i];
    assert key in c.entries;
    AggregateEntryFields(header, data, key);
    AggregateEntryCounts(header, data, key);
    RecordKeys(header, data[FirstIndex(GroupKeys(header, data), key)], GroupFields[k]);
  }

  /** With no data rows there are no entries, and the CSV holds only the
      header line. Only CSV input reaches the writers with no data rows:
      the JSON and XML readers stop with `Invalid JSON.` or `Empty XML
      data.` first (parser.php:55-57, 93-96), so the empty JSON array and
      the childless `<rows>` stated here are states the script never
      reaches. */
  lemma EmptyInput(header: seq<string>)
    ensures Aggregate(header, []) == Empty
    ensures |CsvDocument(Aggregate(header, []))| == 1
    ensures JsonDocument(Aggregate(header, [])) == []
    ensures XmlDocument(Aggregate(header, [])).children == []
  {
    assert Keyed(header, []) == [];
  }
}
