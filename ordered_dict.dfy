/**
  Python's `dict` with string keys, as the rubric code uses it: an insertion-ordered
  list of (key, value) pairs without repeated keys. Assigning to a key that is already
  present replaces its value where it stands; a new key goes to the end.
 */
module OrderedDict {
  import opened Wrappers

  type Dict<V> = seq<(string, V)>

  predicate KeysDistinct<V>(d: Dict<V>) {
    forall i, j :: 0 <= i < j < |d| ==> d[i].0 != d[j].0
  }

  predicate HasKey<V>(d: Dict<V>, k: string) {
    exists i :: 0 <= i < |d| && d[i].0 == k
  }

  /** The first position that holds key `k`. */
  function KeyIndex<V>(d: Dict<V>, k: string): (i: nat)
    requires HasKey(d, k)
    ensures i < |d| && d[i].0 == k
    ensures forall j :: 0 <= j < i ==> d[j].0 != k
  {
    if d[0].0 == k then 0
    else
      assert HasKey(d[1..], k) by {
        var i :| 0 <= i < |d| && d[i].0 == k;
        assert d[1..][i - 1].0 == k;
      }
      1 + KeyIndex(d[1..], k)
  }

  /** `d.get(k)`: the value stored under `k`, if any. */
  function Lookup<V>(d: Dict<V>, k: string): (r: Option<V>)
    ensures r.None? <==> !HasKey(d, k)
    ensures r.Some? ==> exists i :: 0 <= i < |d| && d[i] == (k, r.value)
  {
    if HasKey(d, k) then Some(d[KeyIndex(d, k)].1) else None
  }

  /** In a dictionary without repeated keys, the pair at position `i` is what `Lookup` finds. */
  lemma LookupAt<V>(d: Dict<V>, i: nat)
    requires KeysDistinct(d) && i < |d|
    ensures Lookup(d, d[i].0) == Some(d[i].1)
  {
    assert HasKey(d, d[i].0);
  }

  /** `r` is `d` after `d[k] = v`: `k` maps to `v`, every other key as before, the
      keys keep their positions, and a new key adds one position. */
  ghost predicate Assigns<V>(d: Dict<V>, k: string, v: V, r: Dict<V>) {
    Lookup(r, k) == Some(v)
    && (forall k' :: k' != k ==> Lookup(r, k') == Lookup(d, k'))
    && |r| == (if HasKey(d, k) then |d| else |d| + 1)
    && (forall i :: 0 <= i < |d| ==> r[i].0 == d[i].0)
    && (KeysDistinct(d) ==> KeysDistinct(r))
  }

  /** A dictionary whose first positions hold the same keys finds a key of `d` where `d` does. */
  lemma KeyIndexKept<V>(d: Dict<V>, r: Dict<V>, k: string)
    requires |d| <= |r| && (forall i :: 0 <= i < |d| ==> r[i].0 == d[i].0) && HasKey(d, k)
    ensures HasKey(r, k) && KeyIndex(r, k) == KeyIndex(d, k)
  {
    var q := KeyIndex(d, k);
    assert r[q].0 == k;
    var q' := KeyIndex(r, k);
    assert q' <= q;
    assert d[q'].0 == k;
  }

  /** Overwriting the pair of a present key leaves every other key's value alone. */
  lemma ReplaceKeepsOthers<V>(d: Dict<V>, k: string, v: V, k': string)
    requires HasKey(d, k) && k' != k
    ensures Lookup(d[KeyIndex(d, k) := (k, v)], k') == Lookup(d, k')
  {
    var p := KeyIndex(d, k);
    var r := d[p := (k, v)];
    assert forall i :: 0 <= i < |r| ==> r[i].0 == d[i].0;
    if HasKey(d, k') {
      KeyIndexKept(d, r, k');
      assert KeyIndex(d, k') != p;
    } else {
      assert forall i :: 0 <= i < |r| ==> r[i].0 != k';
    }
  }

  /** Overwriting the pair of a present key. */
  lemma ReplaceAssigns<V>(d: Dict<V>, k: string, v: V)
    requires HasKey(d, k)
    ensures Assigns(d, k, v, d[KeyIndex(d, k) := (k, v)])
  {
    var p := KeyIndex(d, k);
    var r := d[p := (k, v)];
    assert forall i :: 0 <= i < |r| ==> r[i].0 == d[i].0;
    KeyIndexKept(d, r, k);
    forall k' | k' != k ensures Lookup(r, k') == Lookup(d, k') {
      ReplaceKeepsOthers(d, k, v, k');
    }
  }

  /** Appending the pair of an absent key. */
  lemma AppendAssigns<V>(d: Dict<V>, k: string, v: V)
    requires !HasKey(d, k)
    ensures Assigns(d, k, v, d + [(k, v)])
  {
    var r := d + [(k, v)];
    assert r[|d|] == (k, v) && forall i :: 0 <= i < |d| ==> r[i] == d[i];
    assert KeyIndex(r, k) == |d|;
    assert forall k' | k' != k :: HasKey(r, k') ==> HasKey(d, k');
    forall k' | k' != k && HasKey(d, k') ensures Lookup(r, k') == Lookup(d, k') {
      KeyIndexKept(d, r, k');
    }
  }

  /** `d[k] = v`: overwrite in place when `k` is present, otherwise append. */
  function Put<V>(d: Dict<V>, k: string, v: V): (r: Dict<V>)
    ensures Lookup(r, k) == Some(v)
    ensures forall k' :: k' != k ==> Lookup(r, k') == Lookup(d, k')
    ensures |r| == if HasKey(d, k) then |d| else |d| + 1
    ensures forall i :: 0 <= i < |d| ==> r[i].0 == d[i].0
    ensures KeysDistinct(d) ==> KeysDistinct(r)
  {
    if HasKey(d, k) then
      ReplaceAssigns(d, k, v);
      d[KeyIndex(d, k) := (k, v)]
    else
      AppendAssigns(d, k, v);
      d + [(k, v)]
  }

  /** The dictionary built by assigning, in order, every present (key, value) of
      `entries` into an empty one; absent entries assign nothing. */
  function PutAll<V>(entries: seq<Option<(string, V)>>): (d: Dict<V>)
    ensures KeysDistinct(d)
    ensures forall i :: 0 <= i < |d| ==> Some(d[i]) in entries
  {
    if entries == [] then []
    else
      var d := PutAll(entries[..|entries| - 1]);
      match entries[|entries| - 1]
      case None => d
      case Some((k, v)) =>
        var r := Put(d, k, v);
        forall i | 0 <= i < |r| ensures Some(r[i]) in entries {
          LookupAt(r, i);
          if r[i].0 != k {
            var j :| 0 <= j < |d| && d[j] == (r[i].0, r[i].1);
            assert Some(d[j]) in entries[..|entries| - 1];
          }
        }
        r
  }

  /** A key maps to the value of the last entry that assigns it. */
  lemma {:induction false} PutAllLastWins<V>(entries: seq<Option<(string, V)>>, i: nat)
    requires i < |entries| && entries[i].Some?
    requires forall j :: i < j < |entries| && entries[j].Some? ==> entries[j].value.0 != entries[i].value.0
    ensures Lookup(PutAll(entries), entries[i].value.0) == Some(entries[i].value.1)
  {
    if i < |entries| - 1 {
      var init := entries[..|entries| - 1];
      assert forall j :: 0 <= j < |init| ==> init[j] == entries[j];
      PutAllLastWins(init, i);
    }
  }

  /** A key that no entry assigns is absent. */
  lemma {:induction false} PutAllAbsent<V>(entries: seq<Option<(string, V)>>, k: string)
    requires forall j :: 0 <= j < |entries| && entries[j].Some? ==> entries[j].value.0 != k
    ensures Lookup(PutAll(entries), k).None?
  {
    if entries != [] {
      var init := entries[..|entries| - 1];
      assert forall j :: 0 <= j < |init| ==> init[j] == entries[j];
      PutAllAbsent(init, k);
    }
  }
}
