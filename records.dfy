/**
 * Turning one positional data row into a header-keyed record, and the
 * canonical group key of a record (parser.php:130-140).
 */
module Records {
  import opened PhpStrings
  import opened Fields

  /** A record maps field names to trimmed values; PHP's associative array
      keeps the header order too, but nothing downstream reads that order. */
  type Record = map<string, string>

  /** `$row[$i] ?? ''`: the cell at position `i`, or the empty string past
      the end of the row. */
  function Cell(row: seq<string>, i: nat): string {
    if i < |row| then row[i] else ""
  }

  /** `$product[$field] ?? ''`: a field's value, or the empty string when
      the record has no such field. */
  function Get(r: Record, f: string): string {
    if f in r then r[f] else ""
  }

  /** Position `i` is the last one among the first `n` header names that
      carries its name, so its cell is the one the record keeps. */
  predicate LastWithName(header: seq<string>, n: nat, i: nat)
    requires i < n <= |header|
  {
    forall j :: i < j < n ==> header[j] != header[i]
  }

  /** The record after the inner loop has visited the first `n` header
      positions. */
  function RecordPrefix(header: seq<string>, row: seq<string>, n: nat): Record
    requires n <= |header|
  {
    if n == 0 then map[]
    else RecordPrefix(header, row, n - 1)[header[n - 1] := Trim(Cell(row, n - 1))]
  }

  /** After `n` positions every one of the first `n` header names is a
      field of the record. */
  lemma {:induction false} PrefixHasHeader(header: seq<string>, row: seq<string>, n: nat)
    requires n <= |header|
    ensures forall j :: 0 <= j < n ==> header[j] in RecordPrefix(header, row, n)
  {
    if n > 0 {
      PrefixHasHeader(header, row, n - 1);
    }
  }

  /** ... and the record has no other field. */
  lemma {:induction false} PrefixOnlyHeader(header: seq<string>, row: seq<string>, n: nat)
    requires n <= |header|
    ensures forall f :: f in RecordPrefix(header, row, n) ==> f in header[..n]
  {
    if n > 0 {
      PrefixOnlyHeader(header, row, n - 1);
      assert header[..n] == header[..n - 1] + [header[n - 1]];
    }
  }

  /** Each name maps to the trimmed cell of the last position carrying it:
      a later duplicate overwrites an earlier one. */
  lemma {:induction false} PrefixValue(header: seq<string>, row: seq<string>, n: nat)
    requires n <= |header|
    ensures forall i :: 0 <= i < n && LastWithName(header, n, i) ==>
      header[i] in RecordPrefix(header, row, n) &&
      RecordPrefix(header, row, n)[header[i]] == Trim(Cell(row, i))
  {
    if n > 0 {
      PrefixValue(header, row, n - 1);
      var before := RecordPrefix(header, row, n - 1);
      var after := RecordPrefix(header, row, n);
      assert after == before[header[n - 1] := Trim(Cell(row, n - 1))];
      forall i | 0 <= i < n && LastWithName(header, n, i)
        ensures header[i] in after && after[header[i]] == Trim(Cell(row, i))
      {
        if i < n - 1 {
          assert header[n - 1] != header[i];
          assert LastWithName(header, n - 1, i);
        }
      }
    }
  }

  /** The record built from one data row (parser.php:131-134). */
  function RecordOf(header: seq<string>, row: seq<string>): Record {
    RecordPrefix(header, row, |header|)
  }

  /** A name the header holds maps to the trimmed cell of its last
      position; that cell is `''` when the row is too short. */
  lemma RecordLookup(header: seq<string>, row: seq<string>, i: nat)
    requires i < |header| && LastWithName(header, |header|, i)
    ensures header[i] in RecordOf(header, row)
    ensures RecordOf(header, row)[header[i]] == Trim(Cell(row, i))
    ensures i >= |row| ==> RecordOf(header, row)[header[i]] == ""
  {
    PrefixValue(header, row, |header|);
  }

  /** The record's fields are exactly the header's names. */
  lemma RecordKeys(header: seq<string>, row: seq<string>, f: string)
    ensures f in RecordOf(header, row) <==> f in header
  {
    PrefixHasHeader(header, row, |header|);
    PrefixOnlyHeader(header, row, |header|);
    assert header[..|header|] == header;
    if f in header {
      var i :| 0 <= i < |header| && header[i] == f;
    }
  }

  /** Every value of a record is already trimmed. */
  lemma {:induction false} PrefixTrimmed(header: seq<string>, row: seq<string>, n: nat)
    requires n <= |header|
    ensures forall f :: f in RecordPrefix(header, row, n) ==>
      Trim(RecordPrefix(header, row, n)[f]) == RecordPrefix(header, row, n)[f]
  {
    if n > 0 {
      PrefixTrimmed(header, row, n - 1);
      TrimIdempotent(Cell(row, n - 1));
    }
  }

  /** Trimming a value read from a record changes nothing, whether or not
      the record has the field. */
  lemma RecordTrimmed(header: seq<string>, row: seq<string>, f: string)
    ensures Trim(Get(RecordOf(header, row), f)) == Get(RecordOf(header, row), f)
  {
    PrefixTrimmed(header, row, |header|);
    if f !in RecordOf(header, row) {
      assert Trim("") == "";
    }
  }

  /** The inner loop of parser.php:131-134, filling `$product` position by
      position. */
  method BuildRecord(header: seq<string>, row: seq<string>) returns (product: Record)
    ensures product == RecordOf(header, row)
  {
    product := map[];
    var i := 0;
    while i < |header|
      invariant i <= |header|
      invariant product == RecordPrefix(header, row, i)
    {
      product := product[header[i] := Trim(Cell(row, i))];
      i := i + 1;
    }
  }

  /** The seven key parts, `strtolower(trim($product[$field] ?? ''))` for
      each group field in order. */
  function KeyParts(r: Record): (parts: seq<string>)
    ensures |parts| == |GroupFields|
    ensures forall k :: 0 <= k < |GroupFields| ==> parts[k] == ToLower(Trim(Get(r, GroupFields[k])))
  {
    seq(|GroupFields|, k requires 0 <= k < |GroupFields| => ToLower(Trim(Get(r, GroupFields[k]))))
  }

  /** The group key, `implode('|', $keyParts)`. */
  function GroupKey(r: Record): string {
    Join("|", KeyParts(r))
  }

  /** Two records whose group values agree after trimming and lower-casing
      have the same key. */
  lemma SameValuesSameKey(r1: Record, r2: Record)
    requires forall f :: f in GroupFields ==> ToLower(Trim(Get(r1, f))) == ToLower(Trim(Get(r2, f)))
    ensures GroupKey(r1) == GroupKey(r2)
  {
    assert KeyParts(r1) == KeyParts(r2);
  }

  /** The values a record contributes to its key do not contain `|`. */
  predicate NoDelimiter(r: Record) {
    forall f :: f in GroupFields ==> '|' !in Get(r, f)
  }

  /** Conversely, when no group value contains the delimiter, equal keys
      mean equal normalised group values. */
  lemma SameKeySameValues(r1: Record, r2: Record)
    requires NoDelimiter(r1) && NoDelimiter(r2)
    requires GroupKey(r1) == GroupKey(r2)
    ensures forall f :: f in GroupFields ==> ToLower(Trim(Get(r1, f))) == ToLower(Trim(Get(r2, f)))
  {
    forall k | 0 <= k < |GroupFields|
      ensures '|' !in KeyParts(r1)[k] && '|' !in KeyParts(r2)[k]
    {
      assert GroupFields[k] in GroupFields;
      TrimNoNewChar(Get(r1, GroupFields[k]), '|');
      TrimNoNewChar(Get(r2, GroupFields[k]), '|');
      ToLowerNoNewChar(Trim(Get(r1, GroupFields[k])), '|');
      ToLowerNoNewChar(Trim(Get(r2, GroupFields[k])), '|');
    }
    JoinInjective('|', KeyParts(r1), KeyParts(r2));
    forall f | f in GroupFields
      ensures ToLower(Trim(Get(r1, f))) == ToLower(Trim(Get(r2, f)))
    {
      var k :| 0 <= k < |GroupFields| && GroupFields[k] == f;
      assert KeyParts(r1)[k] == KeyParts(r2)[k];
    }
  }

  /** The nested loop of parser.php:136-140: collect the key parts one group
      field at a time, then implode them. */
  method MakeKey(product: Record) returns (key: string)
    ensures key == GroupKey(product)
  {
    var keyParts: seq<string> := [];
    var i := 0;
    while i < |GroupFields|
      invariant i <= |GroupFields| && |keyParts| == i
      invariant forall k :: 0 <= k < i ==> keyParts[k] == KeyParts(product)[k]
    {
      var field := GroupFields[i];
      keyParts := keyParts + [ToLower(Trim(Get(product, field)))];
      i := i + 1;
    }
    assert keyParts == KeyParts(product);
    key := Join("|", keyParts);
  }
}
