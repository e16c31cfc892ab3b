/**
 * The aggregation loop of parser.php:128-146: every data row becomes a
 * record and a key; a key seen for the first time gets an entry holding
 * that record, and every row adds one to its key's count. The PHP array
 * `$combinations` keeps insertion order, modelled as the key sequence
 * `order` beside the map `entries`.
 */
module Aggregation {
  import opened PhpStrings
  import opened Fields
  import opened Records

  /** `['fields' => $product, 'count' => n]`. */
  datatype Entry = Entry(fields: Record, count: nat)

  /** The insertion-ordered array `$combinations`. */
  datatype Combinations = Combinations(order: seq<string>, entries: map<string, Entry>)

  /** `$combinations = []`. */
  const Empty := Combinations([], map[])

  /** The order lists each key once and lists exactly the keys of the map. */
  ghost predicate Listed(c: Combinations) {
    && NoDuplicates(c.order)
    && (forall k :: k in c.order <==> k in c.entries)
  }

  /** ... and every entry has been counted at least once. */
  ghost predicate Valid(c: Combinations) {
    && Listed(c)
    && (forall k :: k in c.entries ==> c.entries[k].count >= 1)
  }

  /** Every listed key has an entry: what iterating over the array needs. */
  ghost predicate Covered(c: Combinations) {
    forall i :: 0 <= i < |c.order| ==> c.order[i] in c.entries
  }

  /** The entries in insertion order, as `foreach ($combinations as $entry)`
      visits them. */
  function Entries(c: Combinations): (es: seq<Entry>)
    requires Covered(c)
    ensures |es| == |c.order|
    ensures forall i :: 0 <= i < |c.order| ==> c.order[i] in c.entries && es[i] == c.entries[c.order[i]]
  {
    seq(|c.order|, i requires 0 <= i < |c.order| && Covered(c) => c.entries[c.order[i]])
  }

  lemma ListedCovered(c: Combinations)
    requires Listed(c)
    ensures Covered(c)
  {
    assert forall i :: 0 <= i < |c.order| ==> c.order[i] in c.order;
  }

  /** The first half of the loop body: a new key gets an entry holding the
      current record with count 0, at the end of the order. */
  function Admit(c: Combinations, key: string, product: Record): (c': Combinations)
    ensures key in c'.entries
  {
    if key in c.entries then c
    else Combinations(c.order + [key], c.entries[key := Entry(product, 0)])
  }

  /** The second half: `$combinations[$key]['count']++`. */
  function Bump(c: Combinations, key: string): Combinations
    requires key in c.entries
  {
    c.(entries := c.entries[key := c.entries[key].(count := c.entries[key].count + 1)])
  }

  /** One pass of the loop body once `$key` and `$product` are known. */
  function Insert(c: Combinations, key: string, product: Record): Combinations {
    Bump(Admit(c, key, product), key)
  }

  /** The rows paired with their keys, as the loop computes them. */
  function Keyed(header: seq<string>, data: seq<seq<string>>): (rows: seq<(string, Record)>)
    ensures |rows| == |data|
    ensures forall i :: 0 <= i < |data| ==>
      rows[i] == (GroupKey(RecordOf(header, data[i])), RecordOf(header, data[i]))
  {
    seq(|data|, i requires 0 <= i < |data| =>
      (GroupKey(RecordOf(header, data[i])), RecordOf(header, data[i])))
  }

  /** The keys of keyed rows, in row order. */
  function KeysOf(rows: seq<(string, Record)>): (ks: seq<string>)
    ensures |ks| == |rows|
    ensures forall i :: 0 <= i < |rows| ==> ks[i] == rows[i].0
  {
    seq(|rows|, i requires 0 <= i < |rows| => rows[i].0)
  }

  /** The state of `$combinations` after the loop has consumed `rows`. */
  function AggregateKeyed(rows: seq<(string, Record)>): Combinations {
    if rows == [] then Empty
    else
      var last := rows[|rows| - 1];
      Insert(AggregateKeyed(rows[..|rows| - 1]), last.0, last.1)
  }

  /** `$combinations` after the whole loop over `$data`. */
  function Aggregate(header: seq<string>, data: seq<seq<string>>): (c: Combinations)
    ensures Valid(c) && Covered(c)
  {
    AggregateValid(Keyed(header, data));
    ListedCovered(AggregateKeyed(Keyed(header, data)));
    AggregateKeyed(Keyed(header, data))
  }

  /** The position of the first occurrence of `x` in `s`. */
  function FirstIndex(s: seq<string>, x: string): (r: nat)
    requires x in s
    ensures r < |s| && s[r] == x
    ensures forall j :: 0 <= j < r ==> s[j] != x
  {
    if s[0] == x then 0 else 1 + FirstIndex(s[1..], x)
  }

  /** In a list without repeats, an item's first position is its position. */
  lemma FirstIndexDistinct(s: seq<string>, i: nat)
    requires NoDuplicates(s) && i < |s|
    ensures FirstIndex(s, s[i]) == i
  {
  }

  /** Sum of the counts of the entries listed in `order`. */
  function SumCounts(order: seq<string>, entries: map<string, Entry>): nat {
    if order == [] then 0
    else
      var k := order[|order| - 1];
      SumCounts(order[..|order| - 1], entries) + (if k in entries then entries[k].count else 0)
  }

  // ---------------------------------------------------------------------
  // One step

  lemma KeysOfPrefix(rows: seq<(string, Record)>)
    requires rows != []
    ensures KeysOf(rows) == KeysOf(rows[..|rows| - 1]) + [rows[|rows| - 1].0]
  {
  }

  // ---------------------------------------------------------------------
  // The loop invariants, over the consumed prefix

  /** Admitting a key keeps the order and the map in step: a new key goes
      at the end of the order, and a known key leaves everything as it was. */
  lemma AdmitListed(c: Combinations, key: string, product: Record)
    requires Listed(c)
    ensures Listed(Admit(c, key, product))
    ensures key in Admit(c, key, product).order
    ensures key !in c.entries ==> Admit(c, key, product).order == c.order + [key]
    ensures key in c.entries ==> Admit(c, key, product) == c
  {
    var c' := Admit(c, key, product);
    if key !in c.entries {
      assert key !in c.order;
      forall i, j | 0 <= i < j < |c'.order| ensures c'.order[i] != c'.order[j] {
        if j == |c.order| {
          assert c'.order[i] == c.order[i] && c.order[i] in c.order;
        }
      }
    }
  }

  /** Admitting a key adds a count of 0, so it leaves the total unchanged. */
  lemma AdmitSum(c: Combinations, key: string, product: Record)
    requires Listed(c)
    ensures SumCounts(Admit(c, key, product).order, Admit(c, key, product).entries)
      == SumCounts(c.order, c.entries)
  {
    if key !in c.entries {
      assert key !in c.order;
      var c' := Admit(c, key, product);
      SumUnaffected(c.order, c.entries, c'.entries);
      assert c'.order[..|c'.order| - 1] == c.order;
    }
  }

  lemma {:induction false} AggregateValid(rows: seq<(string, Record)>)
    ensures Valid(AggregateKeyed(rows))
  {
    if rows != [] {
      AggregateValid(rows[..|rows| - 1]);
      var last := rows[|rows| - 1];
      AdmitListed(AggregateKeyed(rows[..|rows| - 1]), last.0, last.1);
    }
  }

  /** The entries are exactly the keys that occur in the rows, and each
      count is the number of rows carrying that key. */
  lemma {:induction false} AggregateCounts(rows: seq<(string, Record)>)
    ensures forall k :: k in AggregateKeyed(rows).entries <==> k in KeysOf(rows)
    ensures forall k :: k in AggregateKeyed(rows).entries ==>
      AggregateKeyed(rows).entries[k].count == multiset(KeysOf(rows))[k]
  {
    if rows != [] {
      var init := rows[..|rows| - 1];
      AggregateCounts(init);
      KeysOfPrefix(rows);
    }
  }

  lemma FirstIndexExtend(s: seq<string>, y: string, x: string)
    requires x in s
    ensures x in s + [y] && FirstIndex(s + [y], x) == FirstIndex(s, x)
  {
    var i := FirstIndex(s, x);
    var j := FirstIndex(s + [y], x);
    assert (s + [y])[i] == x;
    assert j <= i;
    assert s[j] == x;
  }

  lemma FirstIndexNew(s: seq<string>, y: string)
    requires y !in s
    ensures y in s + [y] && FirstIndex(s + [y], y) == |s|
  {
    assert (s + [y])[|s|] == y;
    assert forall k :: 0 <= k < |s| ==> (s + [y])[k] == s[k];
  }

  /** First writer wins: each entry holds the record of the first row that
      carried its key, and later rows with that key never replace it. */
  lemma {:induction false} AggregateFirstWins(rows: seq<(string, Record)>)
    ensures forall k :: k in AggregateKeyed(rows).entries ==>
      k in KeysOf(rows) &&
      AggregateKeyed(rows).entries[k].fields == rows[FirstIndex(KeysOf(rows), k)].1
  {
    if rows != [] {
      var init := rows[..|rows| - 1];
      var last := rows[|rows| - 1];
      AggregateFirstWins(init);
      AggregateCounts(init);
      KeysOfPrefix(rows);
      var c := AggregateKeyed(init);
      forall k | k in AggregateKeyed(rows).entries
        ensures k in KeysOf(rows)
        ensures AggregateKeyed(rows).entries[k].fields == rows[FirstIndex(KeysOf(rows), k)].1
      {
        if k in c.entries {
          FirstIndexExtend(KeysOf(init), last.0, k);
        } else {
          FirstIndexNew(KeysOf(init), last.0);
        }
      }
    }
  }

  /** Entries are listed in the order in which their keys first occur. */
  lemma {:induction false} AggregateOrder(rows: seq<(string, Record)>)
    ensures forall k :: k in AggregateKeyed(rows).order ==> k in KeysOf(rows)
    ensures forall i, j :: 0 <= i < j < |AggregateKeyed(rows).order| ==>
      FirstIndex(KeysOf(rows), AggregateKeyed(rows).order[i])
        < FirstIndex(KeysOf(rows), AggregateKeyed(rows).order[j])
  {
    if rows != [] {
      var init := rows[..|rows| - 1];
      var last := rows[|rows| - 1];
      AggregateOrder(init);
      AggregateValid(init);
      AggregateCounts(init);
      KeysOfPrefix(rows);
      var c := AggregateKeyed(init);
      var o := AggregateKeyed(rows).order;
      forall i | 0 <= i < |c.order|
        ensures FirstIndex(KeysOf(rows), c.order[i]) == FirstIndex(KeysOf(init), c.order[i])
      {
        FirstIndexExtend(KeysOf(init), last.0, c.order[i]);
      }
      if last.0 !in c.entries {
        FirstIndexNew(KeysOf(init), last.0);
        assert o == c.order + [last.0];
      }
    }
  }

  lemma {:induction false} SumUnaffected(order: seq<string>, e1: map<string, Entry>, e2: map<string, Entry>)
    requires forall k :: k in order ==> (k in e1 <==> k in e2) && (k in e1 ==> e1[k].count == e2[k].count)
    ensures SumCounts(order, e1) == SumCounts(order, e2)
  {
    if order != [] {
      SumUnaffected(order[..|order| - 1], e1, e2);
    }
  }

  lemma {:induction false} SumBump(order: seq<string>, entries: map<string, Entry>, key: string, e: Entry)
    requires NoDuplicates(order) && key in order && key in entries
    requires e.count == entries[key].count + 1
    ensures SumCounts(order, entries[key := e]) == SumCounts(order, entries) + 1
  {
    var init := order[..|order| - 1];
    var k := order[|order| - 1];
    if k == key {
      assert key !in init;
      SumUnaffected(init, entries[key := e], entries);
    } else {
      assert key in init;
      SumBump(init, entries, key, e);
    }
  }

  /** Incrementing one listed count adds one to the total. */
  lemma BumpSum(c: Combinations, key: string)
    requires Listed(c) && key in c.entries
    ensures SumCounts(Bump(c, key).order, Bump(c, key).entries) == SumCounts(c.order, c.entries) + 1
  {
    SumBump(c.order, c.entries, key, c.entries[key].(count := c.entries[key].count + 1));
  }

  /** Each row adds exactly one to exactly one count, so the counts add up
      to the number of rows. */
  lemma {:induction false} AggregateSum(rows: seq<(string, Record)>)
    ensures SumCounts(AggregateKeyed(rows).order, AggregateKeyed(rows).entries) == |rows|
  {
    if rows != [] {
      var init := rows[..|rows| - 1];
      var last := rows[|rows| - 1];
      AggregateSum(init);
      AggregateValid(init);
      var c := AggregateKeyed(init);
      AdmitListed(c, last.0, last.1);
      AdmitSum(c, last.0, last.1);
      BumpSum(Admit(c, last.0, last.1), last.0);
    }
  }

  /** There are never more entries than rows. */
  lemma {:induction false} AggregateSize(rows: seq<(string, Record)>)
    ensures |AggregateKeyed(rows).order| <= |rows|
  {
    if rows != [] {
      AggregateSize(rows[..|rows| - 1]);
    }
  }

  /** When no two rows share a key, every row gets its own entry, in row
      order, with count 1. */
  lemma {:induction false} AggregateDistinct(rows: seq<(string, Record)>)
    requires NoDuplicates(KeysOf(rows))
    ensures AggregateKeyed(rows).order == KeysOf(rows)
    ensures forall k :: k in AggregateKeyed(rows).entries ==> AggregateKeyed(rows).entries[k].count == 1
  {
    if rows != [] {
      var init := rows[..|rows| - 1];
      var last := rows[|rows| - 1];
      KeysOfPrefix(rows);
      assert forall i :: 0 <= i < |init| ==> KeysOf(init)[i] == KeysOf(rows)[i];
      AggregateDistinct(init);
      AggregateCounts(init);
      assert last.0 !in KeysOf(init) by {
        assert forall i :: 0 <= i < |init| ==> KeysOf(init)[i] != KeysOf(rows)[|rows| - 1];
      }
    }
  }

  /** The counts depend only on how many rows carry each key, not on the
      order of the rows. */
  lemma CountsIgnoreOrder(rows1: seq<(string, Record)>, rows2: seq<(string, Record)>)
    requires multiset(KeysOf(rows1)) == multiset(KeysOf(rows2))
    ensures forall k :: k in AggregateKeyed(rows1).entries <==> k in AggregateKeyed(rows2).entries
    ensures forall k :: k in AggregateKeyed(rows1).entries ==>
      AggregateKeyed(rows1).entries[k].count == AggregateKeyed(rows2).entries[k].count
  {
    AggregateCounts(rows1);
    AggregateCounts(rows2);
    forall k ensures k in KeysOf(rows1) <==> k in KeysOf(rows2) {
      assert k in KeysOf(rows1) <==> k in multiset(KeysOf(rows1));
      assert k in KeysOf(rows2) <==> k in multiset(KeysOf(rows2));
    }
  }

  // ---------------------------------------------------------------------
  // The same facts for the rows of a parsed input

  /** The group key of every data row, in row order. */
  function GroupKeys(header: seq<string>, data: seq<seq<string>>): (ks: seq<string>)
    ensures |ks| == |data|
    ensures forall i :: 0 <= i < |data| ==> ks[i] == GroupKey(RecordOf(header, data[i]))
  {
    KeysOf(Keyed(header, data))
  }

  /** The keys of two stretches of data rows, one after the other. */
  lemma GroupKeysAppend(header: seq<string>, a: seq<seq<string>>, b: seq<seq<string>>)
    ensures GroupKeys(header, a + b) == GroupKeys(header, a) + GroupKeys(header, b)
  {
    var ks := GroupKeys(header, a + b);
    var joined := GroupKeys(header, a) + GroupKeys(header, b);
    forall i | 0 <= i < |ks| ensures ks[i] == joined[i] {
      if i >= |a| {
        assert (a + b)[i] == b[i - |a|];
      }
    }
  }

  /** Data rows that are a permutation of each other carry the same keys,
      as often each. */
  lemma {:induction false} GroupKeysPermutation(header: seq<string>, data1: seq<seq<string>>, data2: seq<seq<string>>)
    requires multiset(data1) == multiset(data2)
    ensures multiset(GroupKeys(header, data1)) == multiset(GroupKeys(header, data2))
    decreases |data1|
  {
    if data1 == [] {
      assert |multiset(data2)| == 0;
      assert data2 == [];
    } else {
      var x := data1[0];
      assert x in multiset(data2);
      var j :| 0 <= j < |data2| && data2[j] == x;
      var rest1 := data1[1..];
      var rest2 := data2[..j] + data2[j + 1..];
      assert data1 == [x] + rest1;
      assert data2 == data2[..j] + [x] + data2[j + 1..];
      assert multiset(data1) == multiset{x} + multiset(rest1);
      assert multiset(data2) == multiset(data2[..j]) + multiset{x} + multiset(data2[j + 1..]);
      assert multiset(rest2) == multiset(data2[..j]) + multiset(data2[j + 1..]);
      assert multiset(rest1) == multiset(data1) - multiset{x};
      assert multiset(rest2) == multiset(data2) - multiset{x};
      GroupKeysPermutation(header, rest1, rest2);
      GroupKeysAppend(header, [x], rest1);
      GroupKeysAppend(header, data2[..j] + [x], data2[j + 1..]);
      GroupKeysAppend(header, data2[..j], [x]);
      GroupKeysAppend(header, data2[..j], data2[j + 1..]);
    }
  }

  /** Shuffling the data rows leaves the set of keys and every count
      unchanged. */
  lemma AggregatePermutation(header: seq<string>, data1: seq<seq<string>>, data2: seq<seq<string>>)
    requires multiset(data1) == multiset(data2)
    ensures forall k :: k in Aggregate(header, data1).entries <==> k in Aggregate(header, data2).entries
    ensures forall k :: k in Aggregate(header, data1).entries ==>
      Aggregate(header, data1).entries[k].count == Aggregate(header, data2).entries[k].count
  {
    GroupKeysPermutation(header, data1, data2);
    CountsIgnoreOrder(Keyed(header, data1), Keyed(header, data2));
  }

  /** Every entry is counted at least once, the counts add up to the number
      of data rows, and there are at most that many entries. */
  lemma AggregateTotals(header: seq<string>, data: seq<seq<string>>)
    ensures Valid(Aggregate(header, data))
    ensures SumCounts(Aggregate(header, data).order, Aggregate(header, data).entries) == |data|
    ensures |Aggregate(header, data).order| <= |data|
  {
    AggregateValid(Keyed(header, data));
    AggregateSum(Keyed(header, data));
    AggregateSize(Keyed(header, data));
  }

  /** There is an entry for exactly the keys of the data rows; its count is
      the number of rows with that key. */
  lemma AggregateEntryCounts(header: seq<string>, data: seq<seq<string>>, k: string)
    ensures k in Aggregate(header, data).entries <==> k in GroupKeys(header, data)
    ensures k in Aggregate(header, data).entries ==>
      Aggregate(header, data).entries[k].count == multiset(GroupKeys(header, data))[k]
  {
    AggregateCounts(Keyed(header, data));
  }

  /** An entry keeps the record, in its original casing, of the first data
      row with its key, and that record's key is the entry's key. */
  lemma AggregateEntryFields(header: seq<string>, data: seq<seq<string>>, k: string)
    requires k in Aggregate(header, data).entries
    ensures k in GroupKeys(header, data)
    ensures Aggregate(header, data).entries[k].fields
      == RecordOf(header, data[FirstIndex(GroupKeys(header, data), k)])
    ensures GroupKey(Aggregate(header, data).entries[k].fields) == k
  {
    AggregateFirstWins(Keyed(header, data));
  }

  /** Entries are ordered by the first data row carrying their key. */
  lemma AggregateEntryOrder(header: seq<string>, data: seq<seq<string>>, i: nat, j: nat)
    requires i < j < |Aggregate(header, data).order|
    ensures Aggregate(header, data).order[i] in GroupKeys(header, data)
    ensures Aggregate(header, data).order[j] in GroupKeys(header, data)
    ensures FirstIndex(GroupKeys(header, data), Aggregate(header, data).order[i])
      < FirstIndex(GroupKeys(header, data), Aggregate(header, data).order[j])
  {
    AggregateOrder(Keyed(header, data));
    assert Aggregate(header, data).order[i] in Aggregate(header, data).order;
    assert Aggregate(header, data).order[j] in Aggregate(header, data).order;
  }

  /** Rows that all carry one key make one entry: the first row's record,
      counted once per row. */
  lemma {:induction false} AggregateOneKey(rows: seq<(string, Record)>)
    requires |rows| > 0
    requires forall i :: 0 <= i < |rows| ==> rows[i].0 == rows[0].0
    ensures AggregateKeyed(rows).order == [rows[0].0]
    ensures AggregateKeyed(rows).entries == map[rows[0].0 := Entry(rows[0].1, |rows|)]
  {
    if |rows| > 1 {
      var init := rows[..|rows| - 1];
      assert init[0] == rows[0];
      AggregateOneKey(init);
    }
  }

  /** Rows whose group values agree after trimming and lower-casing, such
      as colours `Red`, `red` and `RED`, collapse into one entry that keeps
      the first row's record, in its casing, and counts every row. */
  lemma CaseVariantsCollapse(header: seq<string>, data: seq<seq<string>>)
    requires |data| > 0
    requires forall i, f :: 0 <= i < |data| && f in GroupFields ==>
      ToLower(Trim(Get(RecordOf(header, data[i]), f))) == ToLower(Trim(Get(RecordOf(header, data[0]), f)))
    ensures Aggregate(header, data).order == [GroupKey(RecordOf(header, data[0]))]
    ensures Aggregate(header, data).entries
      == map[GroupKey(RecordOf(header, data[0])) := Entry(RecordOf(header, data[0]), |data|)]
  {
    var rows := Keyed(header, data);
    forall i | 0 <= i < |rows| ensures rows[i].0 == rows[0].0 {
      SameValuesSameKey(RecordOf(header, data[i]), RecordOf(header, data[0]));
    }
    AggregateOneKey(rows);
  }

  // ---------------------------------------------------------------------
  // The loop itself

  /** Consuming one more row is one more `Insert`. */
  lemma AggregateStep(rows: seq<(string, Record)>, n: nat)
    requires n < |rows|
    ensures AggregateKeyed(rows[..n + 1]) == Insert(AggregateKeyed(rows[..n]), rows[n].0, rows[n].1)
  {
    assert rows[..n + 1][..n] == rows[..n];
  }

  /** The update of parser.php:142-145 for one row whose key and record
      are known. */
  method CountRow(c: Combinations, key: string, product: Record) returns (c': Combinations)
    ensures c' == Insert(c, key, product)
  {
    c' := c;
    if key !in c'.entries {
      c' := Combinations(c'.order + [key], c'.entries[key := Entry(product, 0)]);
    }
    var entry := c'.entries[key];
    c' := c'.(entries := c'.entries[key := entry.(count := entry.count + 1)]);
  }

  /** The loop of parser.php:128-146 over the data rows. */
  method AggregateRows(header: seq<string>, data: seq<seq<string>>) returns (combinations: Combinations)
    ensures combinations == Aggregate(header, data)
  {
    combinations := Empty;
    ghost var rows := Keyed(header, data);
    var n := 0;
    while n < |data|
      invariant n <= |data|
      invariant combinations == AggregateKeyed(rows[..n])
    {
      var product := BuildRecord(header, data[n]);
      var key := MakeKey(product);
      assert rows[n] == (key, product);
      AggregateStep(rows, n);
      combinations := CountRow(combinations, key, product);
      n := n + 1;
    }
    assert rows[..n] == rows;
  }
}
