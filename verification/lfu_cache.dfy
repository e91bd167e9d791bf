/** LFUCache of GopDecoderUtils.hpp: a least-frequently-used map whose keys
    are queued, per use count, in insertion order.  The `pos` iterator map of
    the C++ class is implicit: a key's position is its index in its list. */
module LfuCache {
  import opened Common

  /** capacity; minFreq; keyVal maps a key to (value, use count); freqLists
      maps a use count to the keys with that count, oldest first. */
  datatype Lfu<K, V> = Lfu(capacity: nat, minFreq: int, keyVal: map<K, (V, int)>, freqLists: map<int, seq<K>>)

  /** A fresh cache: LFUCache(capacity). */
  function Empty<K, V>(capacity: nat): (c: Lfu<K, V>)
    ensures c.capacity == capacity && c.keyVal == map[] && c.minFreq == 0
  {
    Lfu(capacity, 0, map[], map[])
  }

  /** freqLists[f], reading an absent entry as the empty list (operator[]
      default-constructs it). */
  function List<K, V>(c: Lfu<K, V>, f: int): seq<K> {
    if f in c.freqLists then c.freqLists[f] else []
  }

  predicate NoDup<K(==)>(s: seq<K>) {
    forall i, j :: 0 <= i < j < |s| ==> s[i] != s[j]
  }

  /** The use count of a cached key. */
  function Count<K, V>(c: Lfu<K, V>, k: K): int
    requires k in c.keyVal
  {
    c.keyVal[k].1
  }

  /** A full cache has a key queued at minFreq, so front() on that list is
      defined. */
  predicate CanEvict<K, V>(c: Lfu<K, V>) {
    |c.keyVal| == c.capacity > 0 ==> |List(c, c.minFreq)| > 0
  }

  /** List s of count f holds distinct keys, each cached with count f. */
  ghost predicate ListOk<K(!new), V>(kv: map<K, (V, int)>, f: int, s: seq<K>) {
    NoDup(s) && forall x :: x in s ==> x in kv && kv[x].1 == f
  }

  /** Every cached key has a count of at least 1 and sits in the list of
      that count. */
  ghost predicate KeysListed<K(!new), V>(c: Lfu<K, V>) {
    forall k :: k in c.keyVal ==> c.keyVal[k].1 >= 1 && k in List(c, c.keyVal[k].1)
  }

  /** No count is below minFreq. */
  ghost predicate AboveMin<K(!new), V>(c: Lfu<K, V>) {
    forall k :: k in c.keyVal ==> c.keyVal[k].1 >= c.minFreq
  }

  ghost predicate ListsOk<K(!new), V>(c: Lfu<K, V>) {
    forall f :: f in c.freqLists ==> ListOk(c.keyVal, f, c.freqLists[f])
  }

  /** The class invariant: every cached key sits once in the list of its own
      use count and in no other; every listed key is cached; no count is
      below 1 or below minFreq; the size stays within the capacity; and a
      full cache has a key queued at minFreq to evict. */
  ghost predicate Valid<K(!new), V>(c: Lfu<K, V>) {
    KeysListed(c) && AboveMin(c) && ListsOk(c) &&
    |c.keyVal| <= c.capacity && CanEvict(c)
  }

  lemma NoDupCons<K>(x: K, r: seq<K>)
    requires NoDup(r) && x !in r
    ensures NoDup([x] + r)
  {
    var s := [x] + r;
    forall i, j | 0 <= i < j < |s| ensures s[i] != s[j] {
      assert s[j] == r[j - 1];
      if i > 0 {
        assert s[i] == r[i - 1];
      }
    }
  }

  lemma NoDupSnoc<K>(r: seq<K>, x: K)
    requires NoDup(r) && x !in r
    ensures NoDup(r + [x])
  {
    var s := r + [x];
    forall i, j | 0 <= i < j < |s| ensures s[i] != s[j] {
      assert s[i] == r[i];
      if j < |r| {
        assert s[j] == r[j];
      }
    }
  }

  /** std::list::erase of the one occurrence of k. */
  function RemoveKey<K(==, !new)>(s: seq<K>, k: K): (r: seq<K>)
    ensures forall x :: x in r <==> x in s && x != k
    ensures NoDup(s) ==> NoDup(r)
    ensures k !in s ==> r == s
  {
    if s == [] then []
    else if s[0] == k then RemoveKey(s[1..], k)
    else
      var rest := RemoveKey(s[1..], k);
      assert forall x :: x in s ==> x == s[0] || x in s[1..];
      assert NoDup(s) ==> NoDup([s[0]] + rest) by {
       if NoDup(s) {
        assert NoDup(s[1..]) by {
          forall i, j | 0 <= i < j < |s[1..]| ensures s[1..][i] != s[1..][j] {
            assert s[1..][i] == s[i + 1] && s[1..][j] == s[j + 1];
          }
        }
        assert s[0] !in s[1..] by {
          forall j | 0 <= j < |s[1..]| ensures s[1..][j] != s[0] {
            assert s[1..][j] == s[j + 1];
          }
        }
        NoDupCons(s[0], rest);
       }
      }
      [s[0]] + rest
  }

  /** The shared body of get and of put on a cached key, before minFreq is
      looked at: move the key from the list of its count to the back of the
      list of the next count. */
  function Bump<K(!new), V>(c: Lfu<K, V>, key: K): (r: Lfu<K, V>)
    requires key in c.keyVal
    ensures r.capacity == c.capacity && r.minFreq == c.minFreq
    ensures r.keyVal == c.keyVal[key := (c.keyVal[key].0, c.keyVal[key].1 + 1)]
  {
    var (v, n) := c.keyVal[key];
    var lists := c.freqLists[n := RemoveKey(List(c, n), key)];
    Lfu(c.capacity, c.minFreq, c.keyVal[key := (v, n + 1)], lists[n + 1 := List(c, n + 1) + [key]])
  }

  /** Bump, then advance minFreq when its list has emptied. */
  function Touch<K(!new), V>(c: Lfu<K, V>, key: K): (r: Lfu<K, V>)
    requires key in c.keyVal
    ensures r.capacity == c.capacity
    ensures r.keyVal == c.keyVal[key := (c.keyVal[key].0, c.keyVal[key].1 + 1)]
  {
    var c' := Bump(c, key);
    if List(c', c.minFreq) == [] then c'.(minFreq := c.minFreq + 1) else c'
  }

  /** get: a cached key's value, after one more use is counted; an uncached
      key gives None and leaves the cache as it was. */
  function Get<K(!new), V>(c: Lfu<K, V>, key: K): (r: (Lfu<K, V>, Option<V>))
    ensures key !in c.keyVal ==> r == (c, None)
    ensures key in c.keyVal ==>
              r.1 == Some(c.keyVal[key].0) && r.0.capacity == c.capacity &&
              r.0.keyVal == c.keyVal[key := (c.keyVal[key].0, c.keyVal[key].1 + 1)]
  {
    if key !in c.keyVal then (c, None)
    else (Touch(c, key), Some(c.keyVal[key].0))
  }

  /** put. Capacity 0 ignores it; a cached key takes the new value and one
      more use; an uncached key into a full cache evicts the oldest key of
      count minFreq and is NOT inserted; otherwise the key enters with count 1. */
  function Put<K(!new), V>(c: Lfu<K, V>, key: K, value: V): (r: Lfu<K, V>)
    requires CanEvict(c)
    ensures r.capacity == c.capacity
    ensures c.capacity == 0 ==> r == c
    ensures c.capacity > 0 && key in c.keyVal ==>
              r.keyVal == c.keyVal[key := (value, c.keyVal[key].1 + 1)]
    ensures c.capacity > 0 && key !in c.keyVal && |c.keyVal| == c.capacity ==>
              key !in r.keyVal && r.keyVal == c.keyVal - {List(c, c.minFreq)[0]}
    ensures c.capacity > 0 && key !in c.keyVal && |c.keyVal| < c.capacity ==>
              r.keyVal == c.keyVal[key := (value, 1)]
  {
    if c.capacity == 0 then c
    else if key in c.keyVal then
      Touch(c.(keyVal := c.keyVal[key := (value, c.keyVal[key].1)]), key)
    else if |c.keyVal| == c.capacity then
      var q := List(c, c.minFreq);
      Lfu(c.capacity, c.minFreq, c.keyVal - {q[0]}, c.freqLists[c.minFreq := q[1..]])
    else
      Lfu(c.capacity, 1, c.keyVal[key := (value, 1)], c.freqLists[1 := List(c, 1) + [key]])
  }

  /** getSize. */
  function Size<K(!new), V>(c: Lfu<K, V>): (n: nat)
    requires Valid(c)
    ensures n <= c.capacity
  {
    |c.keyVal|
  }

  /* ---------- The invariant is kept ---------- */

  lemma EmptyValid<K(!new), V>(capacity: nat)
    ensures Valid(Empty<K, V>(capacity))
  {
  }

  lemma ListOfValid<K(!new), V>(c: Lfu<K, V>, f: int)
    requires ListsOk(c)
    ensures ListOk(c.keyVal, f, List(c, f))
  {
  }

  /** A list that does not hold key is unaffected by key's entry. */
  lemma ListOkFrame<K(!new), V>(kv: map<K, (V, int)>, f: int, s: seq<K>, key: K, x: (V, int))
    requires ListOk(kv, f, s) && key !in s
    ensures ListOk(kv[key := x], f, s)
  {
  }

  lemma ListOkRemove<K(!new), V>(kv: map<K, (V, int)>, f: int, s: seq<K>, key: K, x: (V, int))
    requires ListOk(kv, f, s)
    ensures ListOk(kv[key := x], f, RemoveKey(s, key))
  {
  }

  lemma ListOkAppend<K(!new), V>(kv: map<K, (V, int)>, f: int, s: seq<K>, key: K, v: V)
    requires ListOk(kv, f, s) && key !in s
    ensures ListOk(kv[key := (v, f)], f, s + [key])
  {
    NoDupSnoc(s, key);
  }

  lemma ListOkForget<K(!new), V>(kv: map<K, (V, int)>, f: int, s: seq<K>, del: K)
    requires ListOk(kv, f, s) && del !in s
    ensures ListOk(kv - {del}, f, s)
  {
  }

  lemma ListOkDrop<K(!new), V>(kv: map<K, (V, int)>, f: int, s: seq<K>)
    requires ListOk(kv, f, s) && |s| > 0
    ensures ListOk(kv - {s[0]}, f, s[1..])
  {
    forall i, j | 0 <= i < j < |s[1..]| ensures s[1..][i] != s[1..][j] {
      assert s[1..][i] == s[i + 1] && s[1..][j] == s[j + 1];
    }
    forall x | x in s[1..] ensures x != s[0] {
      var j :| 0 <= j < |s[1..]| && s[1..][j] == x;
      assert s[1..][j] == s[j + 1];
    }
  }

  /** The lists after a bump of key, whose count was n. */
  lemma BumpListsOk<K(!new), V>(c: Lfu<K, V>, key: K)
    requires ListsOk(c) && key in c.keyVal
    ensures ListsOk(Bump(c, key))
  {
    var (v, n) := c.keyVal[key];
    var r := Bump(c, key);
    ListOfValid(c, n);
    ListOfValid(c, n + 1);
    forall f | f in r.freqLists ensures ListOk(r.keyVal, f, r.freqLists[f]) {
      if f == n + 1 {
        ListOkAppend(c.keyVal, n + 1, List(c, n + 1), key, v);
      } else if f == n {
        ListOkRemove(c.keyVal, n, List(c, n), key, (v, n + 1));
      } else {
        ListOfValid(c, f);
        ListOkFrame(c.keyVal, f, c.freqLists[f], key, (v, n + 1));
      }
    }
  }

  /** After a bump every cached key is still in the list of its count. */
  lemma BumpKeysListed<K(!new), V>(c: Lfu<K, V>, key: K)
    requires KeysListed(c) && key in c.keyVal
    ensures KeysListed(Bump(c, key))
  {
    var n := c.keyVal[key].1;
    var r := Bump(c, key);
    forall k | k in r.keyVal ensures r.keyVal[k].1 >= 1 && k in List(r, r.keyVal[k].1) {
      if k != key {
        var m := c.keyVal[k].1;
        assert k in List(c, m);
        if m == n {
          assert k in RemoveKey(List(c, n), key);
        } else if m == n + 1 {
          assert List(r, n + 1) == List(c, n + 1) + [key];
        } else {
          assert List(r, m) == List(c, m);
        }
      } else {
        assert List(r, n + 1) == List(c, n + 1) + [key];
      }
    }
  }

  /** If no key is queued at minFreq after a bump, every count exceeds it. */
  lemma BumpAboveMin<K(!new), V>(c: Lfu<K, V>, key: K)
    requires KeysListed(c) && AboveMin(c) && key in c.keyVal
    ensures AboveMin(Touch(c, key))
  {
    BumpKeysListed(c, key);
    var b := Bump(c, key);
    if List(b, c.minFreq) == [] {
      forall k | k in b.keyVal ensures b.keyVal[k].1 >= c.minFreq + 1 {
        assert k in List(b, b.keyVal[k].1);
      }
    }
  }

  /** A full cache still has a key queued at minFreq after a touch: either
      the touched key left another list, or it is now alone at minFreq + 1. */
  lemma TouchCanEvict<K(!new), V>(c: Lfu<K, V>, key: K)
    requires CanEvict(c) && AboveMin(c) && key in c.keyVal
    ensures CanEvict(Touch(c, key))
  {
    var n := c.keyVal[key].1;
    var b := Bump(c, key);
    assert |b.keyVal| == |c.keyVal|;
    if |c.keyVal| == c.capacity > 0 {
      if n != c.minFreq {
        assert List(b, c.minFreq) == List(c, c.minFreq);
      } else if List(b, c.minFreq) == [] {
        assert List(b, n + 1) == List(c, n + 1) + [key];
      }
    }
  }

  /** Touching a cached key keeps the invariant. */
  lemma TouchValid<K(!new), V>(c: Lfu<K, V>, key: K)
    requires Valid(c) && key in c.keyVal
    ensures Valid(Touch(c, key))
  {
    var b := Bump(c, key);
    var r := Touch(c, key);
    BumpListsOk(c, key);
    BumpKeysListed(c, key);
    BumpAboveMin(c, key);
    TouchCanEvict(c, key);
    SameListsKeepShape(b, r);
    assert c.keyVal.Keys == r.keyVal.Keys;
  }

  /** Two caches with the same entries and lists agree on the list-shape
      parts of the invariant, whatever their minFreq. */
  lemma SameListsKeepShape<K(!new), V>(b: Lfu<K, V>, r: Lfu<K, V>)
    requires r.keyVal == b.keyVal && r.freqLists == b.freqLists
    ensures KeysListed(b) ==> KeysListed(r)
    ensures ListsOk(b) ==> ListsOk(r)
  {
    assert forall f :: List(r, f) == List(b, f);
  }

  /** A new key into a full cache: evicting the front of the minFreq list
      keeps the invariant. */
  lemma EvictValid<K(!new), V>(c: Lfu<K, V>)
    requires Valid(c) && |c.keyVal| == c.capacity > 0
    ensures var q := List(c, c.minFreq);
            Valid(Lfu(c.capacity, c.minFreq, c.keyVal - {q[0]}, c.freqLists[c.minFreq := q[1..]]))
  {
    var q := List(c, c.minFreq);
    var victim := q[0];
    var kv' := c.keyVal - {victim};
    var r := Lfu(c.capacity, c.minFreq, kv', c.freqLists[c.minFreq := q[1..]]);
    ListOfValid(c, c.minFreq);
    assert victim in c.keyVal;
    forall f | f in r.freqLists ensures ListOk(kv', f, r.freqLists[f]) {
      if f == c.minFreq {
        ListOkDrop(c.keyVal, f, q);
      } else {
        ListOfValid(c, f);
        ListOkForget(c.keyVal, f, c.freqLists[f], victim);
      }
    }
    forall k | k in kv' ensures k in List(r, kv'[k].1) {
      var m := c.keyVal[k].1;
      assert k in List(c, m);
      if m == c.minFreq {
        var i :| 0 <= i < |q| && q[i] == k;
        assert i != 0;
        assert q[1..][i - 1] == k;
      } else {
        assert List(r, m) == List(c, m);
      }
    }
    assert |kv'| == |c.keyVal| - 1;
  }

  /** A new key into a cache with room keeps the invariant. */
  lemma InsertValid<K(!new), V>(c: Lfu<K, V>, key: K, value: V)
    requires Valid(c) && key !in c.keyVal && |c.keyVal| < c.capacity
    ensures Valid(Lfu(c.capacity, 1, c.keyVal[key := (value, 1)], c.freqLists[1 := List(c, 1) + [key]]))
  {
    var kv' := c.keyVal[key := (value, 1)];
    var r := Lfu(c.capacity, 1, kv', c.freqLists[1 := List(c, 1) + [key]]);
    ListOfValid(c, 1);
    forall f | f in r.freqLists ensures ListOk(kv', f, r.freqLists[f]) {
      if f == 1 {
        ListOkAppend(c.keyVal, 1, List(c, 1), key, value);
      } else {
        ListOfValid(c, f);
        ListOkFrame(c.keyVal, f, c.freqLists[f], key, (value, 1));
      }
    }
    forall k | k in kv' ensures k in List(r, kv'[k].1) {
      if k != key {
        var m := c.keyVal[k].1;
        assert k in List(c, m);
        if m != 1 {
          assert List(r, m) == List(c, m);
        }
      }
    }
    assert |kv'| == |c.keyVal| + 1;
  }

  /** The key put evicts from a full cache is cached and has the least use
      count of all cached keys. */
  lemma EvictsLeastUsed<K(!new), V>(c: Lfu<K, V>, key: K, value: V)
    requires Valid(c) && |c.keyVal| == c.capacity > 0 && key !in c.keyVal
    ensures var victim := List(c, c.minFreq)[0];
            victim in c.keyVal && Put(c, key, value).keyVal == c.keyVal - {victim} &&
            forall k :: k in c.keyVal ==> Count(c, victim) <= Count(c, k)
  {
    ListOfValid(c, c.minFreq);
    assert List(c, c.minFreq)[0] in List(c, c.minFreq);
  }

  /** Overwriting the value of a cached key, before its count is bumped,
      keeps the invariant. */
  lemma ReplaceValueValid<K(!new), V>(c: Lfu<K, V>, key: K, value: V)
    requires Valid(c) && key in c.keyVal
    ensures Valid(c.(keyVal := c.keyVal[key := (value, c.keyVal[key].1)]))
  {
    var d := c.(keyVal := c.keyVal[key := (value, c.keyVal[key].1)]);
    assert ListsOk(d) by {
      forall f | f in d.freqLists ensures ListOk(d.keyVal, f, d.freqLists[f]) {
        ListOfValid(c, f);
      }
    }
    assert KeysListed(d) by {
      forall k | k in d.keyVal ensures d.keyVal[k].1 >= 1 && k in List(d, d.keyVal[k].1) {
        assert d.keyVal[k].1 == c.keyVal[k].1;
      }
    }
    assert d.keyVal.Keys == c.keyVal.Keys;
  }

  /** put keeps the invariant, so the size never exceeds the capacity. */
  lemma PutValid<K(!new), V>(c: Lfu<K, V>, key: K, value: V)
    requires Valid(c)
    ensures Valid(Put(c, key, value))
  {
    if c.capacity == 0 {
    } else if key in c.keyVal {
      ReplaceValueValid(c, key, value);
      TouchValid(c.(keyVal := c.keyVal[key := (value, c.keyVal[key].1)]), key);
    } else if |c.keyVal| == c.capacity {
      EvictValid(c);
    } else {
      InsertValid(c, key, value);
    }
  }

  /** get keeps the invariant. */
  lemma GetValid<K(!new), V>(c: Lfu<K, V>, key: K)
    requires Valid(c)
    ensures Valid(Get(c, key).0)
  {
    if key in c.keyVal {
      TouchValid(c, key);
    }
  }
}
