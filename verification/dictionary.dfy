/** The insertion discipline of .NET's Dictionary<K, V>.Add, used by the cache
    (src/CookieTracker.cs:55), the route table (src/Responders/Router.cs:59) and
    the command table (src/DiscordSlashCommandHandler.cs:115, :122): adding a key
    that is already present throws instead of overwriting. The error value of a
    failed insertion is the offending key. */
module Dictionary {
  import opened Wrappers

  /** Dictionary.Add: insert a fresh key, fail on a key already present. */
  function Add<K, V>(m: map<K, V>, k: K, v: V): (r: Result<map<K, V>, K>)
    ensures r.Success? <==> k !in m
    ensures r.Success? ==> r.value.Keys == m.Keys + {k} && r.value[k] == v
    ensures r.Success? ==> forall x :: x in m ==> x in r.value && r.value[x] == m[x]
    ensures r.Failure? ==> r.error == k
  {
    if k in m then Failure(k) else Success(m[k := v])
  }

  /** The keys of a list of entries. */
  function KeysOf<K, V>(entries: seq<(K, V)>): set<K> {
    set i | 0 <= i < |entries| :: entries[i].0
  }

  /** No key occurs twice in a list of entries. */
  predicate DistinctKeys<K(==), V>(entries: seq<(K, V)>) {
    forall i, j :: 0 <= i < j < |entries| ==> entries[i].0 != entries[j].0
  }

  /** A sequence of Dictionary.Add calls in list order; the first one that
      throws aborts the rest. It succeeds exactly when the keys are pairwise
      distinct and none was present already, and then every entry is found
      under its key and every earlier entry is kept. */
  function AddAll<K(==), V>(m: map<K, V>, entries: seq<(K, V)>): (r: Result<map<K, V>, K>)
    ensures r.Success? <==> DistinctKeys(entries) && m.Keys !! KeysOf(entries)
    ensures r.Success? ==> r.value.Keys == m.Keys + KeysOf(entries)
    ensures r.Success? ==> forall k :: k in m ==> r.value[k] == m[k]
    ensures r.Success? ==> forall i :: 0 <= i < |entries| ==> r.value[entries[i].0] == entries[i].1
    ensures r.Failure? ==> r.error in KeysOf(entries)
    decreases |entries|
  {
    if entries == [] then Success(m)
    else
      var rest := entries[1..];
      assert KeysOf(entries) == {entries[0].0} + KeysOf(rest) by {
        forall k | k in KeysOf(entries) ensures k in {entries[0].0} + KeysOf(rest) {
          var i :| 0 <= i < |entries| && entries[i].0 == k;
          if i > 0 { assert rest[i - 1].0 == k; }
        }
      }
      match Add(m, entries[0].0, entries[0].1)
      case Failure(k) => Failure(k)
      case Success(m') =>
        var r := AddAll(m', rest);
        assert DistinctKeys(entries) <==> DistinctKeys(rest) && entries[0].0 !in KeysOf(rest) by {
          if DistinctKeys(rest) && entries[0].0 !in KeysOf(rest) {
            forall i, j | 0 <= i < j < |entries| ensures entries[i].0 != entries[j].0 {
              if i > 0 { assert rest[i - 1] == entries[i] && rest[j - 1] == entries[j]; }
              else { assert rest[j - 1].0 in KeysOf(rest); }
            }
          }
          if DistinctKeys(entries) {
            forall j | 0 <= j < |rest| ensures rest[j].0 != entries[0].0 {
              assert rest[j] == entries[j + 1];
            }
          }
        }
        if r.Success? then
          assert forall i :: 1 <= i < |entries| ==> entries[i] == rest[i - 1];
          r
        else r
  }
}
