/**
 * The three output writers of parser.php:149-190. Each visits the entries
 * in insertion order and projects an entry onto the seven group fields, in
 * field order, followed by its count; a field the stored record lacks
 * shows as `''`. Only the serialisation differs, so a CSV line is a list
 * of cells, a JSON row a list of name/value pairs, and an XML row an
 * element tree, each before it is rendered as text.
 */
module Writers {
  import opened PhpStrings
  import opened Fields
  import opened Records
  import opened Aggregation

  /** `array_merge($groupFields, ['count'])`. */
  const OutputHeader: seq<string> := GroupFields + ["count"]

  /** A cell of an output row: a field's text, or the integer count. */
  datatype Value = Text(text: string) | Number(n: nat)

  /** A `SimpleXMLElement` node: a name, its text and its children. */
  datatype Xml = Element(name: string, text: string, children: seq<Xml>)

  /** How a cell reads once written as text. */
  function Render(v: Value): string {
    match v
    case Text(t) => t
    case Number(n) => NatToString(n)
  }

  /** The cells of one output row: `$entry['fields'][$field] ?? ''` for each
      group field, then `$entry['count']`. */
  function RowValues(e: Entry): seq<Value> {
    seq(|GroupFields|, k requires 0 <= k < |GroupFields| => Text(Get(e.fields, GroupFields[k])))
      + [Number(e.count)]
  }

  /** An output row has one cell per output column: each group field's
      stored value, `''` when absent, then the count. */
  lemma RowValuesSpec(e: Entry)
    ensures |RowValues(e)| == |OutputHeader|
    ensures forall k :: 0 <= k < |GroupFields| ==> RowValues(e)[k] == Text(Get(e.fields, GroupFields[k]))
    ensures RowValues(e)[|GroupFields|] == Number(e.count)
  {
  }

  // ---------------------------------------------------------------------
  // CSV (parser.php:150-164)

  /** The header line `fputcsv` writes first. */
  function HeaderLine(): (line: seq<Value>)
    ensures |line| == |OutputHeader|
    ensures forall k :: 0 <= k < |OutputHeader| ==> line[k] == Text(OutputHeader[k])
  {
    seq(|OutputHeader|, k requires 0 <= k < |OutputHeader| => Text(OutputHeader[k]))
  }

  /** The lines handed to `fputcsv`: the header, then one line per entry. */
  function CsvDocument(c: Combinations): (lines: seq<seq<Value>>)
    requires Covered(c)
    ensures |lines| == |c.order| + 1
    ensures lines[0] == HeaderLine()
    ensures forall i :: 0 <= i < |c.order| ==> lines[i + 1] == RowValues(Entries(c)[i])
  {
    [HeaderLine()] + seq(|c.order|, i requires 0 <= i < |c.order| && Covered(c) => RowValues(Entries(c)[i]))
  }

  /** The inner loop of parser.php:156-160, building `$rowOut`. */
  method CsvLine(e: Entry) returns (rowOut: seq<Value>)
    ensures rowOut == RowValues(e)
  {
    RowValuesSpec(e);
    rowOut := [];
    var i := 0;
    while i < |GroupFields|
      invariant i <= |GroupFields| && |rowOut| == i
      invariant forall k :: 0 <= k < i ==> rowOut[k] == Text(Get(e.fields, GroupFields[k]))
    {
      rowOut := rowOut + [Text(Get(e.fields, GroupFields[i]))];
      i := i + 1;
    }
    rowOut := rowOut + [Number(e.count)];
  }

  /** parser.php:152-162: the header line, then one line per entry. */
  method WriteCsv(c: Combinations) returns (lines: seq<seq<Value>>)
    requires Covered(c)
    ensures lines == CsvDocument(c)
  {
    lines := [HeaderLine()];
    var i := 0;
    while i < |c.order|
      invariant i <= |c.order| && |lines| == i + 1
      invariant lines[0] == HeaderLine()
      invariant forall k :: 0 <= k < i ==> lines[k + 1] == RowValues(Entries(c)[k])
    {
      var rowOut := CsvLine(c.entries[c.order[i]]);
      lines := lines + [rowOut];
      i := i + 1;
    }
    ghost var doc := CsvDocument(c);
    forall k | 0 <= k < |lines| ensures lines[k] == doc[k] {
      if k > 0 {
        assert lines[(k - 1) + 1] == doc[(k - 1) + 1];
      }
    }
  }

  // ---------------------------------------------------------------------
  // JSON (parser.php:166-177)

  /** One JSON object: the output header's names paired with the row's
      cells. */
  function JsonRow(e: Entry): seq<(string, Value)> {
    seq(|OutputHeader|, k requires 0 <= k < |OutputHeader| => (OutputHeader[k], RowValues(e)[k]))
  }

  /** The array `$out` handed to `json_encode`. */
  function JsonDocument(c: Combinations): (out: seq<seq<(string, Value)>>)
    requires Covered(c)
    ensures |out| == |c.order|
    ensures forall i :: 0 <= i < |c.order| ==> out[i] == JsonRow(Entries(c)[i])
  {
    seq(|c.order|, i requires 0 <= i < |c.order| && Covered(c) => JsonRow(Entries(c)[i]))
  }

  /** The inner loop of parser.php:169-173, building `$row`. */
  method JsonLine(e: Entry) returns (row: seq<(string, Value)>)
    ensures row == JsonRow(e)
  {
    RowValuesSpec(e);
    row := [];
    var i := 0;
    while i < |GroupFields|
      invariant i <= |GroupFields| && |row| == i
      invariant forall k :: 0 <= k < i ==> row[k] == (GroupFields[k], Text(Get(e.fields, GroupFields[k])))
    {
      var field := GroupFields[i];
      row := row + [(field, Text(Get(e.fields, field)))];
      i := i + 1;
    }
    row := row + [("count", Number(e.count))];
    assert forall k :: 0 <= k < |GroupFields| ==> OutputHeader[k] == GroupFields[k];
  }

  /** parser.php:167-175. */
  method WriteJson(c: Combinations) returns (out: seq<seq<(string, Value)>>)
    requires Covered(c)
    ensures out == JsonDocument(c)
  {
    out := [];
    var i := 0;
    while i < |c.order|
      invariant i <= |c.order| && |out| == i
      invariant forall k :: 0 <= k < i ==> out[k] == JsonRow(Entries(c)[k])
    {
      var row := JsonLine(c.entries[c.order[i]]);
      out := out + [row];
      i := i + 1;
    }
    assert forall k :: 0 <= k < |out| ==> out[k] == JsonDocument(c)[k];
  }

  // ---------------------------------------------------------------------
  // XML (parser.php:179-189)

  /** One `<row>` element: a child per output column, holding the rendered
      cell. */
  function XmlRow(e: Entry): Xml {
    Element("row", "", seq(|OutputHeader|, k requires 0 <= k < |OutputHeader| =>
      Element(OutputHeader[k], Render(RowValues(e)[k]), [])))
  }

  /** The `<rows>` document. */
  function XmlDocument(c: Combinations): (doc: Xml)
    requires Covered(c)
    ensures doc.name == "rows" && doc.text == "" && |doc.children| == |c.order|
    ensures forall i :: 0 <= i < |c.order| ==> doc.children[i] == XmlRow(Entries(c)[i])
  {
    Element("rows", "", seq(|c.order|, i requires 0 <= i < |c.order| && Covered(c) => XmlRow(Entries(c)[i])))
  }

  /** The inner loop of parser.php:182-186, adding children to `$row`. */
  method XmlLine(e: Entry) returns (row: Xml)
    ensures row == XmlRow(e)
  {
    RowValuesSpec(e);
    var children := [];
    var i := 0;
    while i < |GroupFields|
      invariant i <= |GroupFields| && |children| == i
      invariant forall k :: 0 <= k < i ==> children[k] == Element(GroupFields[k], Get(e.fields, GroupFields[k]), [])
    {
      var field := GroupFields[i];
      children := children + [Element(field, Get(e.fields, field), [])];
      i := i + 1;
    }
    children := children + [Element("count", NatToString(e.count), [])];
    assert forall k :: 0 <= k < |GroupFields| ==> OutputHeader[k] == GroupFields[k];
    row := Element("row", "", children);
  }

  /** parser.php:180-187. */
  method WriteXml(c: Combinations) returns (xml: Xml)
    requires Covered(c)
    ensures xml == XmlDocument(c)
  {
    var rows := [];
    var i := 0;
    while i < |c.order|
      invariant i <= |c.order| && |rows| == i
      invariant forall k :: 0 <= k < i ==> rows[k] == XmlRow(Entries(c)[k])
    {
      var row := XmlLine(c.entries[c.order[i]]);
      rows := rows + [row];
      i := i + 1;
    }
    assert forall k :: 0 <= k < |rows| ==> rows[k] == XmlDocument(c).children[k];
    assert rows == XmlDocument(c).children;
    xml := Element("rows", "", rows);
  }

  // ---------------------------------------------------------------------
  // Agreement between the formats

  /** The three writers emit the same rows in the same order: the `i`-th
      JSON object and the `i`-th XML row carry the names and cells of the
      `i`-th CSV data line. */
  lemma FormatsAgree(c: Combinations, i: nat, k: nat)
    requires Covered(c) && i < |c.order| && k < |OutputHeader|
    ensures JsonDocument(c)[i][k] == (Render(CsvDocument(c)[0][k]), CsvDocument(c)[i + 1][k])
    ensures XmlDocument(c).children[i].children[k]
      == Element(Render(CsvDocument(c)[0][k]), Render(CsvDocument(c)[i + 1][k]), [])
  {
  }
}
