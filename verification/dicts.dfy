/** Python dicts whose insertion order matters, as association lists.
    `Put` is `d[k] = v`: an existing key keeps its position and takes the
    new value, a new key is appended. */
module Dicts {
  import opened Wrappers

  type Dict<K, V> = seq<(K, V)>

  function Keys<K, V>(d: Dict<K, V>): set<K> {
    set i | 0 <= i < |d| :: d[i].0
  }

  predicate UniqueKeys<K(==), V>(d: Dict<K, V>) {
    forall i, j | 0 <= i < j < |d| :: d[i].0 != d[j].0
  }

  /** The position of the first entry with key `k`, or -1. */
  function Find<K(==), V>(d: Dict<K, V>, k: K): (r: int)
    ensures -1 <= r < |d|
    ensures r >= 0 ==> d[r].0 == k
    ensures forall j | 0 <= j < |d| && (r < 0 || j < r) :: d[j].0 != k
  {
    if |d| == 0 then -1
    else if d[|d| - 1].0 == k && Find(d[..|d| - 1], k) < 0 then |d| - 1
    else Find(d[..|d| - 1], k)
  }

  /** `d.get(k)`: the value stored under `k`. */
  function Get<K(==), V>(d: Dict<K, V>, k: K): (r: Option<V>)
    ensures r.Some? <==> k in Keys(d)
  {
    var i := Find(d, k);
    if i < 0 then None else Some(d[i].1)
  }

  /** Two lists whose keys agree position by position on a common prefix,
      and where the longer one does not hold `k` beyond it, find `k` at the
      same place. */
  lemma FindSameKeys<K, V>(d: Dict<K, V>, r: Dict<K, V>, k: K)
    requires |d| <= |r|
    requires forall j | 0 <= j < |d| :: r[j].0 == d[j].0
    requires forall j | |d| <= j < |r| :: r[j].0 != k
    ensures Find(r, k) == Find(d, k)
  {
    var a, b := Find(r, k), Find(d, k);
    if a >= 0 && a < |d| {
      assert d[a].0 == k;
    }
    if b >= 0 {
      assert r[b].0 == k;
    }
  }

  /** `d[k] = v`. */
  function Put<K(==, !new), V>(d: Dict<K, V>, k: K, v: V): (r: Dict<K, V>)
    ensures Get(r, k) == Some(v)
    ensures forall k' | k' != k :: Get(r, k') == Get(d, k')
    ensures Keys(r) == Keys(d) + {k}
    ensures UniqueKeys(d) ==> UniqueKeys(r)
    ensures k !in Keys(d) ==> r == d + [(k, v)]
  {
    AssignFound(d, k, v);
    AssignOthers(d, k, v);
    AssignKeys(d, k, v);
    Assign(d, k, v)
  }

  /** The entry `k` is replaced in place or appended. */
  function Assign<K(==), V>(d: Dict<K, V>, k: K, v: V): Dict<K, V> {
    var i := Find(d, k);
    if i < 0 then d + [(k, v)] else d[i := (k, v)]
  }

  /** Where `Put` stores the entry: at the old place of `k`, or at the end. */
  function Slot<K(==), V>(d: Dict<K, V>, k: K): nat {
    var i := Find(d, k);
    if i < 0 then |d| else i
  }

  lemma AssignFound<K, V>(d: Dict<K, V>, k: K, v: V)
    ensures Find(Assign(d, k, v), k) == Slot(d, k)
  {
    var r, at := Assign(d, k, v), Slot(d, k);
    assert r[at].0 == k;
    assert forall j | 0 <= j < at :: r[j].0 == d[j].0 != k;
  }

  lemma AssignOthers<K, V>(d: Dict<K, V>, k: K, v: V)
    ensures forall k' | k' != k :: Get(Assign(d, k, v), k') == Get(d, k')
  {
    var r := Assign(d, k, v);
    assert forall j | 0 <= j < |d| :: r[j].0 == d[j].0;
    forall k' | k' != k ensures Get(r, k') == Get(d, k') {
      FindSameKeys(d, r, k');
    }
  }

  lemma AssignKeys<K, V>(d: Dict<K, V>, k: K, v: V)
    ensures Keys(Assign(d, k, v)) == Keys(d) + {k}
    ensures UniqueKeys(d) ==> UniqueKeys(Assign(d, k, v))
  {
    var r := Assign(d, k, v);
    assert forall j | 0 <= j < |d| :: r[j].0 == d[j].0;
    forall x | x in Keys(r) ensures x in Keys(d) + {k} {
      var j :| 0 <= j < |r| && r[j].0 == x;
      if j < |d| { assert d[j].0 == x; }
    }
    forall x | x in Keys(d) ensures x in Keys(r) {
      var j :| 0 <= j < |d| && d[j].0 == x;
      assert r[j].0 == x;
    }
    assert r[Slot(d, k)].0 == k;
  }

  /** The keys of a list with one more entry at the end. */
  lemma KeysSnoc<K, V>(d: Dict<K, V>, k: K, v: V)
    ensures Keys(d + [(k, v)]) == Keys(d) + {k}
  {
    var r := d + [(k, v)];
    forall x | x in Keys(r) ensures x in Keys(d) + {k} {
      var j :| 0 <= j < |r| && r[j].0 == x;
      if j < |d| { assert d[j].0 == x; }
    }
    forall x | x in Keys(d) ensures x in Keys(r) {
      var j :| 0 <= j < |d| && d[j].0 == x;
      assert r[j].0 == x;
    }
    assert r[|d|].0 == k;
  }
}
