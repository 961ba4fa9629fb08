/** The durable store as the flush loop sees it: a table from cookie id to
    click count, written by the two array-parameter statements of
    src/CookieTracker.cs:191-229.
    - UPDATE ... FROM unnest(ids, clicks) WHERE cookies.id = data_table.id sets
      the count of every listed id that has a row and ignores the others.
    - INSERT ... SELECT * FROM unnest(ids, clicks) adds one row per listed id;
      the primary key makes the whole statement fail, changing nothing, when
      an id already has a row or is listed twice. */
module CookieStore {
  import opened Wrappers
  import opened Cookies
  import Dictionary

  type Store = map<Ulid, nat>

  /** The two index-aligned parameter lists of one batch statement. */
  datatype Batch = Batch(ids: seq<Ulid>, counts: seq<nat>) {
    predicate Aligned() {
      |ids| == |counts|
    }

    predicate IsEmpty() {
      |ids| == 0
    }

    predicate DistinctIds() {
      forall i, j :: 0 <= i < j < |ids| ==> ids[i] != ids[j]
    }

    function IdSet(): set<Ulid> {
      set i | 0 <= i < |ids| :: ids[i]
    }
  }

  const EmptyBatch := Batch([], [])

  /** The batch as (id, count) rows, as unnest pairs the two arrays. */
  function Rows(b: Batch): (rows: seq<(Ulid, nat)>)
    requires b.Aligned()
    ensures |rows| == |b.ids|
    ensures forall i :: 0 <= i < |rows| ==> rows[i] == (b.ids[i], b.counts[i])
  {
    seq(|b.ids|, i requires 0 <= i < |b.ids| => (b.ids[i], b.counts[i]))
  }

  /** The bulk UPDATE: every listed id with a row takes its listed count;
      rows not listed and listed ids without a row are left alone. */
  function ApplyUpdate(store: Store, b: Batch): (r: Store)
    requires b.Aligned()
    ensures r.Keys == store.Keys
    ensures forall k :: k in store && k !in b.IdSet() ==> r[k] == store[k]
    ensures b.DistinctIds() ==>
              forall i :: 0 <= i < |b.ids| && b.ids[i] in store ==> r[b.ids[i]] == b.counts[i]
    decreases |b.ids|
  {
    if b.IsEmpty() then store
    else
      var id := b.ids[0];
      var rest := Batch(b.ids[1..], b.counts[1..]);
      var store' := if id in store then store[id := b.counts[0]] else store;
      var r := ApplyUpdate(store', rest);
      SplitFirstRow(b);
      r
  }

  /** A non-empty batch is its first row followed by the batch of the rest. */
  lemma SplitFirstRow(b: Batch)
    requires b.Aligned() && !b.IsEmpty()
    ensures var rest := Batch(b.ids[1..], b.counts[1..]);
            && rest.Aligned()
            && (forall i :: 1 <= i < |b.ids| ==> b.ids[i] == rest.ids[i - 1] && b.counts[i] == rest.counts[i - 1])
            && b.IdSet() == {b.ids[0]} + rest.IdSet()
            && (b.DistinctIds() ==> rest.DistinctIds() && b.ids[0] !in rest.IdSet())
  {
    var rest := Batch(b.ids[1..], b.counts[1..]);
    assert b.IdSet() == {b.ids[0]} + rest.IdSet() by {
      forall k | k in b.IdSet() ensures k in {b.ids[0]} + rest.IdSet() {
        var i :| 0 <= i < |b.ids| && b.ids[i] == k;
        if i > 0 { assert rest.ids[i - 1] == k; }
      }
      forall k | k in rest.IdSet() ensures k in b.IdSet() {
        var i :| 0 <= i < |rest.ids| && rest.ids[i] == k;
        assert b.ids[i + 1] == k;
      }
    }
    if b.DistinctIds() {
      forall k | k in rest.IdSet() ensures k != b.ids[0] {
        var i :| 0 <= i < |rest.ids| && rest.ids[i] == k;
        assert b.ids[i + 1] == k;
      }
    }
  }

  /** The bulk INSERT: atomic; on a key violation the store is unchanged and
      the offending id is reported. */
  function ApplyInsert(store: Store, b: Batch): (r: Result<Store, Ulid>)
    requires b.Aligned()
    ensures r.Success? <==> b.DistinctIds() && store.Keys !! b.IdSet()
    ensures r.Success? ==> r.value.Keys == store.Keys + b.IdSet()
    ensures r.Success? ==> forall k :: k in store ==> r.value[k] == store[k]
    ensures r.Success? ==> forall i :: 0 <= i < |b.ids| ==> r.value[b.ids[i]] == b.counts[i]
  {
    var rows := Rows(b);
    assert Dictionary.KeysOf(rows) == b.IdSet() by {
      forall k | k in b.IdSet() ensures k in Dictionary.KeysOf(rows) {
        var i :| 0 <= i < |b.ids| && b.ids[i] == k;
        assert rows[i].0 == k;
      }
    }
    assert Dictionary.DistinctKeys(rows) <==> b.DistinctIds() by {
      assert forall i :: 0 <= i < |rows| ==> rows[i].0 == b.ids[i];
    }
    Dictionary.AddAll(store, rows)
  }
}
