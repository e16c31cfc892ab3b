/**
 * Feeding the CSV output back in as input. The written lines are read
 * back cell by cell as their text (taking `fputcsv` and `str_getcsv` to be
 * inverse), and the header line is the output header. Every output row is
 * unique by construction, so grouping again keeps the same entries, in the
 * same order, each with count 1.
 */
module RoundTrip {
  import opened Outcomes
  import opened PhpStrings
  import opened Fields
  import opened Records
  import opened Aggregation
  import opened Writers

  /** The text of each cell of an output line. */
  function ReadLine(line: seq<Value>): (cells: seq<string>)
    ensures |cells| == |line|
    ensures forall k :: 0 <= k < |line| ==> cells[k] == Render(line[k])
  {
    seq(|line|, k requires 0 <= k < |line| => Render(line[k]))
  }

  /** The data rows of a re-read CSV document: every line after the header. */
  function ReadData(lines: seq<seq<Value>>): (data: seq<seq<string>>)
    requires |lines| >= 1
    ensures |data| == |lines| - 1
    ensures forall i :: 0 <= i < |data| ==> data[i] == ReadLine(lines[i + 1])
  {
    seq(|lines| - 1, i requires 0 <= i < |lines| - 1 => ReadLine(lines[i + 1]))
  }

  /** The output header names each column once. */
  lemma OutputHeaderDistinct()
    ensures NoDuplicates(OutputHeader)
  {
    GroupFieldsDistinct();
    assert OutputHeader[7] == "count";
    assert OutputHeader[7][0] == 'c' && OutputHeader[7][2] == 'u';
    assert GroupFields[0][0] == 'b' && GroupFields[1][0] == 'm' && GroupFields[3][0] == 'g'
      && GroupFields[4][0] == 'n' && GroupFields[5][0] == 'g';
    assert GroupFields[2][2] == 'l' && GroupFields[6][2] == 'n';
  }

  /** The stored value of every group field is already trimmed. */
  ghost predicate GroupTrimmed(r: Record) {
    forall f :: f in GroupFields ==> Trim(Get(r, f)) == Get(r, f)
  }

  /** Reading one output row back yields a record with the same group
      values, and so the same key. */
  lemma RereadRow(e: Entry)
    requires GroupTrimmed(e.fields)
    ensures forall f :: f in GroupFields ==>
      Get(RecordOf(OutputHeader, ReadLine(RowValues(e))), f) == Get(e.fields, f)
    ensures GroupKey(RecordOf(OutputHeader, ReadLine(RowValues(e)))) == GroupKey(e.fields)
  {
    var row := ReadLine(RowValues(e));
    var r := RecordOf(OutputHeader, row);
    OutputHeaderDistinct();
    forall f | f in GroupFields ensures Get(r, f) == Get(e.fields, f) {
      var k :| 0 <= k < |GroupFields| && GroupFields[k] == f;
      assert OutputHeader[k] == f;
      RecordLookup(OutputHeader, row, k);
    }
    SameValuesSameKey(r, e.fields);
  }

  /** What the aggregation guarantees of its entries, and all the round
      trip needs: each is listed once, keyed by its own fields, and holds
      trimmed values. */
  ghost predicate WellKeyed(c: Combinations) {
    && Listed(c)
    && Covered(c)
    && forall k :: k in c.entries ==> GroupKey(c.entries[k].fields) == k && GroupTrimmed(c.entries[k].fields)
  }

  /** The key of every re-read row is the key of the entry it was written
      from. */
  lemma RereadKeys(c: Combinations)
    requires WellKeyed(c)
    ensures GroupKeys(OutputHeader, ReadData(CsvDocument(c))) == c.order
  {
    var data := ReadData(CsvDocument(c));
    forall i | 0 <= i < |c.order|
      ensures GroupKeys(OutputHeader, data)[i] == c.order[i]
    {
      RereadRow(Entries(c)[i]);
    }
  }

  /** Grouping the re-read output again keeps the entries in the same
      order and counts each once. */
  lemma RegroupOrder(c: Combinations)
    requires WellKeyed(c)
    ensures Aggregate(OutputHeader, ReadData(CsvDocument(c))).order == c.order
    ensures forall k :: k in Aggregate(OutputHeader, ReadData(CsvDocument(c))).entries ==>
      Aggregate(OutputHeader, ReadData(CsvDocument(c))).entries[k].count == 1
  {
    RereadKeys(c);
    AggregateDistinct(Keyed(OutputHeader, ReadData(CsvDocument(c))));
  }

  /** ... and each entry keeps the group values it was written with. */
  lemma RegroupValues(c: Combinations, i: nat, f: string)
    requires WellKeyed(c) && i < |c.order| && f in GroupFields
    ensures c.order[i] in Aggregate(OutputHeader, ReadData(CsvDocument(c))).entries
    ensures Get(Aggregate(OutputHeader, ReadData(CsvDocument(c))).entries[c.order[i]].fields, f)
      == Get(c.entries[c.order[i]].fields, f)
  {
    var data := ReadData(CsvDocument(c));
    var key := c.order[i];
    RereadKeys(c);
    assert key in GroupKeys(OutputHeader, data);
    AggregateEntryCounts(OutputHeader, data, key);
    AggregateEntryFields(OutputHeader, data, key);
    FirstIndexDistinct(c.order, i);
    RereadRow(Entries(c)[i]);
  }

  /** The aggregation of any input meets what the round trip needs. */
  lemma AggregateWellKeyed(header: seq<string>, data: seq<seq<string>>)
    ensures WellKeyed(Aggregate(header, data))
  {
    AggregateTotals(header, data);
    var c := Aggregate(header, data);
    forall k | k in c.entries
      ensures GroupKey(c.entries[k].fields) == k && GroupTrimmed(c.entries[k].fields)
    {
      AggregateEntryFields(header, data, k);
      var j := FirstIndex(GroupKeys(header, data), k);
      forall f | f in GroupFields ensures Trim(Get(c.entries[k].fields, f)) == Get(c.entries[k].fields, f) {
        RecordTrimmed(header, data[j], f);
      }
    }
  }

  /** Writing the grouped CSV, reading it back and grouping it again gives
      the same combinations in the same order, each counted once. The
      re-read header still holds every required field. */
  lemma CsvRoundTrip(header: seq<string>, data: seq<seq<string>>)
    ensures ValidateRequiredFields(OutputHeader, GroupFields) == Pass
    ensures Aggregate(OutputHeader, ReadData(CsvDocument(Aggregate(header, data)))).order
      == Aggregate(header, data).order
    ensures forall k :: k in Aggregate(OutputHeader, ReadData(CsvDocument(Aggregate(header, data)))).entries ==>
      Aggregate(OutputHeader, ReadData(CsvDocument(Aggregate(header, data)))).entries[k].count == 1
  {
    AggregateWellKeyed(header, data);
    RegroupOrder(Aggregate(header, data));
    SupersetPasses(OutputHeader);
  }
}
