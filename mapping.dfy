/** Loading of the atomistic-to-coarse-grained mapping table (`read_mapping`).

    Each row of the table names a fine-grained atom (`aa`), the coarse-grained
    bead it belongs to (`cg`) and the atom's mass.  Loading groups the rows by
    trimmed bead name into an ordered list of (trimmed atom name, mass) pairs. */
module Mapping {
  import opened Wrappers
  import opened Text

  /** One decoded row of the mapping table. */
  datatype AACGItem = AACGItem(aa: string, cg: string, mass: real)

  /** A bead's constituent: an atom name and its mass. */
  type Entry = (string, real)

  /** Bead name to its constituents, in table order. */
  type AACGMap = map<string, seq<Entry>>

  /** What the CSV reader yields for one row: a decoded item, or a row that
      failed to decode (missing column, non-numeric mass, ...). */
  datatype Record = Decoded(item: AACGItem) | Undecodable

  /** The mapping file: either it cannot be opened, or it is a table of rows. */
  datatype MappingSource = Unopenable | Table(records: seq<Record>)

  datatype MappingError = OpenFailed | DecodeFailed(row: nat)

  /** The key a row is grouped under. */
  function Key(item: AACGItem): string
  {
    Trim(item.cg)
  }

  /** The pair a row contributes to its bead's list. */
  function EntryOf(item: AACGItem): Entry
  {
    (Trim(item.aa), item.mass)
  }

  predicate AllDecoded(records: seq<Record>)
  {
    forall i :: 0 <= i < |records| ==> records[i].Decoded?
  }

  /** The items of a table whose every row decoded. */
  function Items(records: seq<Record>): (items: seq<AACGItem>)
    requires AllDecoded(records)
    ensures |items| == |records|
    ensures forall i :: 0 <= i < |records| ==> items[i] == records[i].item
  {
    seq(|records|, i requires 0 <= i < |records| => records[i].item)
  }

  /** The grouping the load builds: the fold over the rows that appends each
      row's pair to the list under its key, creating the list when absent. */
  function Group(items: seq<AACGItem>): AACGMap
  {
    if |items| == 0 then map[]
    else
      var m := Group(items[..|items| - 1]);
      var last := items[|items| - 1];
      var k := Key(last);
      m[k := (if k in m then m[k] else []) + [EntryOf(last)]]
  }

  /** Reference definition: the pairs of the rows keyed `k`, in row order. */
  function EntriesFor(items: seq<AACGItem>, k: string): seq<Entry>
  {
    if |items| == 0 then []
    else
      var last := items[|items| - 1];
      EntriesFor(items[..|items| - 1], k) + (if Key(last) == k then [EntryOf(last)] else [])
  }

  predicate NoDuplicates(s: seq<string>)
  {
    forall i, j :: 0 <= i < j < |s| ==> s[i] != s[j]
  }

  /** `keys` enumerates the keys of `m`, each exactly once: the model of a
      `HashMap`'s (fixed but unspecified) iteration order. */
  predicate IsKeyOrder<V>(keys: seq<string>, m: map<string, V>)
  {
    && NoDuplicates(keys)
    && (forall k :: k in keys ==> k in m)
    && (forall k :: k in m ==> k in keys)
  }

  lemma ItemsSnoc(records: seq<Record>, i: nat)
    requires i < |records| && AllDecoded(records[..i]) && records[i].Decoded?
    ensures AllDecoded(records[..i + 1])
    ensures Items(records[..i + 1]) == Items(records[..i]) + [records[i].item]
  {
    forall j | 0 <= j < i ensures records[j].Decoded? {
      assert records[..i][j] == records[j];
    }
  }

  /** One step of the fold: a row is appended under its key. */
  lemma GroupSnoc(items: seq<AACGItem>, x: AACGItem)
    ensures var m := Group(items);
            Group(items + [x]) == m[Key(x) := (if Key(x) in m then m[Key(x)] else []) + [EntryOf(x)]]
  {
    assert (items + [x])[..|items|] == items;
  }

  /** `read_mapping`: fails when the file cannot be opened, fails with the
      first row that does not decode, and otherwise returns the grouping of
      all rows. */
  method ReadMapping(source: MappingSource) returns (r: Result<AACGMap, MappingError>)
    ensures source.Unopenable? ==> r == Err(OpenFailed)
    ensures source.Table? ==> (r.Ok? <==> AllDecoded(source.records))
    ensures source.Table? && r.Err? ==>
              r.error.DecodeFailed? && r.error.row < |source.records|
              && source.records[r.error.row].Undecodable?
              && AllDecoded(source.records[..r.error.row])
    ensures r.Ok? ==> r.value == Group(Items(source.records))
  {
    if source.Unopenable? {
      return Err(OpenFailed);
    }
    var records := source.records;
    var grouped: AACGMap := map[];
    var i := 0;
    while i < |records|
      invariant 0 <= i <= |records|
      invariant AllDecoded(records[..i])
      invariant grouped == Group(Items(records[..i]))
    {
      match records[i]
      case Undecodable =>
        return Err(DecodeFailed(i));
      case Decoded(item) =>
        var key := Trim(item.cg);
        var list := if key in grouped then grouped[key] else [];
        grouped := grouped[key := list + [(Trim(item.aa), item.mass)]];
        ItemsSnoc(records, i);
        GroupSnoc(Items(records[..i]), item);
      i := i + 1;
    }
    assert records[..i] == records;
    return Ok(grouped);
  }

  /** A key is present exactly when some row carries it, and its list is
      exactly the pairs of those rows, in row order. */
  lemma {:induction false} GroupIsFilter(items: seq<AACGItem>, k: string)
    ensures k in Group(items) <==> EntriesFor(items, k) != []
    ensures k in Group(items) ==> Group(items)[k] == EntriesFor(items, k)
  {
    if |items| > 0 {
      GroupIsFilter(items[..|items| - 1], k);
    }
  }

  /** No bead list is empty. */
  lemma GroupNonEmpty(items: seq<AACGItem>)
    ensures forall k :: k in Group(items) ==> Group(items)[k] != []
  {
    forall k | k in Group(items) ensures Group(items)[k] != [] {
      GroupIsFilter(items, k);
    }
  }

  /** A row's key always has a non-empty reference list. */
  lemma {:induction false} RowListed(items: seq<AACGItem>, i: nat)
    requires i < |items|
    ensures EntriesFor(items, Key(items[i])) != []
  {
    var n := |items| - 1;
    if i < n {
      assert items[..n][i] == items[i];
      RowListed(items[..n], i);
    }
  }

  /** A non-empty reference list comes from some row with that key. */
  lemma {:induction false} ListedRow(items: seq<AACGItem>, k: string) returns (i: nat)
    requires EntriesFor(items, k) != []
    ensures i < |items| && Key(items[i]) == k
  {
    var n := |items| - 1;
    if Key(items[n]) == k {
      i := n;
    } else {
      i := ListedRow(items[..n], k);
      assert items[..n][i] == items[i];
    }
  }

  /** The keys of the grouping are exactly the trimmed bead names of the rows. */
  lemma GroupKeys(items: seq<AACGItem>, k: string)
    ensures k in Group(items) <==> exists i :: 0 <= i < |items| && Key(items[i]) == k
  {
    GroupIsFilter(items, k);
    if EntriesFor(items, k) != [] {
      var i := ListedRow(items, k);
    }
    if exists i :: 0 <= i < |items| && Key(items[i]) == k {
      var i :| 0 <= i < |items| && Key(items[i]) == k;
      RowListed(items, i);
    }
  }

  /** Sum of the lengths of the lists under `keys`. */
  function SumLengths(m: AACGMap, keys: seq<string>): nat
    requires forall k :: k in keys ==> k in m
  {
    if keys == [] then 0 else |m[keys[0]]| + SumLengths(m, keys[1..])
  }

  /** Sum of the lengths of the reference lists under `keys`. */
  function SumEntries(items: seq<AACGItem>, keys: seq<string>): nat
  {
    if keys == [] then 0 else |EntriesFor(items, keys[0])| + SumEntries(items, keys[1..])
  }

  function Occurrences(keys: seq<string>, k: string): nat
  {
    if keys == [] then 0 else (if keys[0] == k then 1 else 0) + Occurrences(keys[1..], k)
  }

  lemma {:induction false} OccursOnce(keys: seq<string>, k: string)
    requires NoDuplicates(keys) && k in keys
    ensures Occurrences(keys, k) == 1
  {
    if keys[0] == k {
      OccursNot(keys[1..], k);
    } else {
      OccursOnce(keys[1..], k);
    }
  }

  lemma {:induction false} OccursNot(keys: seq<string>, k: string)
    requires k !in keys
    ensures Occurrences(keys, k) == 0
  {
    if keys != [] {
      OccursNot(keys[1..], k);
    }
  }

  /** Appending one row adds one to the reference total for each occurrence of its key. */
  lemma {:induction false} SumEntriesStep(items: seq<AACGItem>, x: AACGItem, keys: seq<string>)
    ensures SumEntries(items + [x], keys) == SumEntries(items, keys) + Occurrences(keys, Key(x))
  {
    if keys != [] {
      assert (items + [x])[..|items|] == items;
      SumEntriesStep(items, x, keys[1..]);
    }
  }

  /** Counted over a duplicate-free list of keys that covers every row, the
      reference lists hold each row once. */
  lemma {:induction false} SumEntriesCountsRows(items: seq<AACGItem>, keys: seq<string>)
    requires NoDuplicates(keys)
    requires forall i :: 0 <= i < |items| ==> Key(items[i]) in keys
    ensures SumEntries(items, keys) == |items|
  {
    if items == [] {
      EmptyEntries(keys);
    } else {
      var init, x := items[..|items| - 1], items[|items| - 1];
      assert items == init + [x];
      SumEntriesCountsRows(init, keys);
      SumEntriesStep(init, x, keys);
      OccursOnce(keys, Key(x));
    }
  }

  lemma {:induction false} EmptyEntries(keys: seq<string>)
    ensures SumEntries([], keys) == 0
  {
    if keys != [] {
      EmptyEntries(keys[1..]);
    }
  }

  lemma {:induction false} SumLengthsIsSumEntries(items: seq<AACGItem>, keys: seq<string>)
    requires forall k :: k in keys ==> k in Group(items)
    ensures SumLengths(Group(items), keys) == SumEntries(items, keys)
  {
    if keys != [] {
      GroupIsFilter(items, keys[0]);
      SumLengthsIsSumEntries(items, keys[1..]);
    }
  }

  /** No row is lost or duplicated: over any iteration order of the keys,
      the lists hold as many pairs as there were rows. */
  lemma GroupCountsRows(items: seq<AACGItem>, keys: seq<string>)
    requires IsKeyOrder(keys, Group(items))
    ensures SumLengths(Group(items), keys) == |items|
  {
    SumLengthsIsSumEntries(items, keys);
    forall i | 0 <= i < |items| ensures Key(items[i]) in keys {
      GroupKeys(items, Key(items[i]));
    }
    SumEntriesCountsRows(items, keys);
  }

  /** A duplicate-free enumeration of a set has as many elements as the set. */
  lemma {:induction false} EnumerationSize(keys: seq<string>, s: set<string>)
    requires NoDuplicates(keys)
    requires forall k :: k in keys <==> k in s
    ensures |keys| == |s|
  {
    if keys != [] {
      var rest := s - {keys[0]};
      forall k ensures k in keys[1..] <==> k in rest {
        if k in keys[1..] {
          var j :| 0 <= j < |keys[1..]| && keys[1..][j] == k;
          assert keys[j + 1] == k;
        }
      }
      EnumerationSize(keys[1..], rest);
    }
  }

  /** An iteration order visits as many keys as the map has. */
  lemma KeyOrderSize<V>(keys: seq<string>, m: map<string, V>)
    requires IsKeyOrder(keys, m)
    ensures |keys| == |m|
  {
    EnumerationSize(keys, m.Keys);
  }
}
