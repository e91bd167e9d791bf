/** CachedGopDecoder: a per-path cache of extracted GOPs in front of the
    native GetGOP / GetGOPList calls. The native extraction and the packet
    merge are oracles; the packet bundles are an opaque type parameter P. */
module GopCache {
  import opened Common

  /** One cached GOP: the packet bundle, its first frame id and its length. */
  datatype Entry<P> = Entry(packets: P, first: int, len: int)

  /** What the native GetGOPList returns per file: a bundle with the lists
      of first frame ids and GOP lengths (one element each for one file). */
  datatype Gop<P> = Gop(packets: P, firsts: seq<int>, lens: seq<int>)

  /** The decoder's cache and the hit list of its most recent call. */
  datatype Cached<P> = Cached(cache: map<string, Entry<P>>, lastHits: seq<bool>)

  /** The Python errors the cache paths can raise. */
  datatype CacheError =
    | MissingKey(path: string)     // KeyError on a path the cache lacks
    | EmptyGopList(path: string)   // IndexError on `[0]` of an empty list

  /** The native calls: GetGOP (merged), GetGOPList (per file) and
      MergePacketDataToOne. */
  datatype Native<!P> = Native(
    getGop: (seq<string>, seq<int>) -> (P, seq<int>, seq<int>),
    getGopList: (seq<string>, seq<int>) -> seq<Gop<P>>,
    merge: seq<P> -> P)

  function NewDecoder<P>(): Cached<P> {
    Cached(map[], [])
  }

  /** _is_cache_hit: the path is cached and the frame lies in its GOP. */
  predicate IsCacheHit<P>(cache: map<string, Entry<P>>, path: string, frame: int) {
    path in cache && cache[path].first <= frame < cache[path].first + cache[path].len
  }

  /** The hit list: one flag per (path, frame) pair, as `zip` pairs them
      (up to the shorter list). */
  function Hits<P>(cache: map<string, Entry<P>>, paths: seq<string>, ids: seq<int>): (r: seq<bool>)
    ensures |r| == if |paths| <= |ids| then |paths| else |ids|
    ensures forall i :: 0 <= i < |r| ==> (r[i] <==> IsCacheHit(cache, paths[i], ids[i]))
  {
    var n := if |paths| <= |ids| then |paths| else |ids|;
    seq(n, i requires 0 <= i < n => IsCacheHit(cache, paths[i], ids[i]))
  }

  /** Every flag set. */
  predicate AllTrue(s: seq<bool>) {
    forall i :: 0 <= i < |s| ==> s[i]
  }

  /** isCacheHit: the hit list of the most recent GetGOP or GetGOPList. */
  function IsCacheHitList<P>(d: Cached<P>): (r: seq<bool>)
    ensures d == NewDecoder() ==> r == []
  {
    d.lastHits
  }

  /** clear_cache: drop every entry; the hit list is kept. */
  function ClearCache<P>(d: Cached<P>): (r: Cached<P>)
    ensures r.cache == map[] && r.lastHits == d.lastHits
    ensures forall p, f :: !IsCacheHit(r.cache, p, f)
  {
    Cached(map[], d.lastHits)
  }

  /* ---------- Writing fetched GOPs ---------- */

  /** The entry a fetched per-file GOP is stored as. */
  function EntryOf<P>(g: Gop<P>): Entry<P>
    requires |g.firsts| > 0 && |g.lens| > 0
  {
    Entry(g.packets, g.firsts[0], g.lens[0])
  }

  /** No later position holds the same path. */
  predicate LastOccurrence(paths: seq<string>, i: int)
    requires 0 <= i < |paths|
  {
    forall j :: i < j < |paths| ==> paths[j] != paths[i]
  }

  /** The loop that stores fetched GOPs, pairing paths and results as `zip`
      does; it stops at the first result with an empty list, keeping the
      entries written before it. */
  function Store<P>(cache: map<string, Entry<P>>, paths: seq<string>, results: seq<Gop<P>>)
    : (r: (map<string, Entry<P>>, Option<CacheError>))
    ensures forall p :: p !in paths ==> (p in r.0 <==> p in cache) && (p in cache ==> r.0[p] == cache[p])
    ensures forall p :: p in cache ==> p in r.0
    ensures r.1.Some? ==> r.1.value.EmptyGopList?
    ensures r.1.None? && |paths| <= |results| ==>
              forall i :: 0 <= i < |paths| ==>
                (paths[i] in r.0 &&
                 (LastOccurrence(paths, i) ==> |results[i].firsts| > 0 && |results[i].lens| > 0 &&
                                                r.0[paths[i]] == EntryOf(results[i])))
    decreases |paths|
  {
    if |paths| == 0 || |results| == 0 then (cache, None)
    else if |results[0].firsts| == 0 || |results[0].lens| == 0 then (cache, Some(EmptyGopList(paths[0])))
    else
      var r := Store(cache[paths[0] := EntryOf(results[0])], paths[1..], results[1..]);
      assert r.1.None? && |paths| <= |results| ==>
               forall i :: 0 <= i < |paths| ==>
                 (paths[i] in r.0 &&
                  (LastOccurrence(paths, i) ==> |results[i].firsts| > 0 && |results[i].lens| > 0 &&
                                                 r.0[paths[i]] == EntryOf(results[i]))) by {
        if r.1.None? && |paths| <= |results| {
          forall i | 0 <= i < |paths|
            ensures paths[i] in r.0
            ensures LastOccurrence(paths, i) ==> |results[i].firsts| > 0 && |results[i].lens| > 0 &&
                                                 r.0[paths[i]] == EntryOf(results[i])
          {
            if i > 0 {
              assert paths[i] == paths[1..][i - 1];
              if LastOccurrence(paths, i) {
                assert LastOccurrence(paths[1..], i - 1);
              }
            } else if LastOccurrence(paths, 0) {
              assert paths[0] !in paths[1..];
            }
          }
        }
      }
      r
  }

  /* ---------- Merging cached entries ---------- */

  /** The cached entries of the paths, in request order; the first path the
      cache lacks raises KeyError. */
  function Lookup<P>(cache: map<string, Entry<P>>, paths: seq<string>): (r: Result<seq<Entry<P>>, CacheError>)
    ensures r.Ok? <==> forall i :: 0 <= i < |paths| ==> paths[i] in cache
    ensures r.Ok? ==> |r.value| == |paths| && forall i :: 0 <= i < |paths| ==> r.value[i] == cache[paths[i]]
    ensures r.Err? ==> exists i :: 0 <= i < |paths| && paths[i] !in cache && r.error == MissingKey(paths[i])
  {
    if |paths| == 0 then Ok([])
    else if paths[0] !in cache then Err(MissingKey(paths[0]))
    else
      match Lookup(cache, paths[1..])
      case Err(e) => Err(e)
      case Ok(rest) => Ok([cache[paths[0]]] + rest)
  }

  /** _merge_cached_data: the bundles of the paths merged into one (a single
      path's bundle is returned unmerged), with the first frame ids and GOP
      lengths listed in request order. */
  function MergeCached<P>(cache: map<string, Entry<P>>, paths: seq<string>, merge: seq<P> -> P)
    : (r: Result<(P, seq<int>, seq<int>), CacheError>)
    ensures r.Ok? <==> forall i :: 0 <= i < |paths| ==> paths[i] in cache
    ensures r.Ok? ==> |r.value.1| == |paths| == |r.value.2| &&
                      forall i :: 0 <= i < |paths| ==>
                        r.value.1[i] == cache[paths[i]].first && r.value.2[i] == cache[paths[i]].len
    ensures r.Ok? && |paths| == 1 ==> r.value.0 == cache[paths[0]].packets
    ensures r.Ok? && |paths| != 1 ==>
              r.value.0 == merge(seq(|paths|, i requires 0 <= i < |paths| && paths[i] in cache => cache[paths[i]].packets))
  {
    match Lookup(cache, paths)
    case Err(e) => Err(e)
    case Ok(es) =>
      var packets := seq(|es|, i requires 0 <= i < |es| => es[i].packets);
      var firsts := seq(|es|, i requires 0 <= i < |es| => es[i].first);
      var lens := seq(|es|, i requires 0 <= i < |es| => es[i].len);
      if |es| == 1 then Ok((packets[0], firsts, lens))
      else
        assert packets == seq(|paths|, i requires 0 <= i < |paths| && paths[i] in cache => cache[paths[i]].packets);
        Ok((merge(packets), firsts, lens))
  }

  /* ---------- GetGOP ---------- */

  /** GetGOP. Without the cache: record all misses and call the native
      GetGOP. With it: when every pair hits, merge the cached entries;
      otherwise refetch EVERY path with the native GetGOPList, store each
      result, then merge. */
  function GetGop<P>(d: Cached<P>, n: Native<P>, paths: seq<string>, ids: seq<int>, useCache: bool)
    : (r: (Cached<P>, Result<(P, seq<int>, seq<int>), CacheError>))
    ensures !useCache ==> r == (Cached(d.cache, seq(|paths|, _ => false)), Ok(n.getGop(paths, ids)))
    ensures useCache ==> r.0.lastHits == Hits(d.cache, paths, ids)
    ensures useCache && AllTrue(Hits(d.cache, paths, ids)) ==>
              r.0.cache == d.cache && r.1 == MergeCached(d.cache, paths, n.merge)
    ensures useCache && !AllTrue(Hits(d.cache, paths, ids)) ==>
              var fetched := n.getGopList(paths, ids);
              r.0.cache == Store(d.cache, paths, fetched).0 &&
              (Store(d.cache, paths, fetched).1.Some? ==> r.1 == Err(Store(d.cache, paths, fetched).1.value)) &&
              (Store(d.cache, paths, fetched).1.None? ==> r.1 == MergeCached(r.0.cache, paths, n.merge))
  {
    if !useCache then (Cached(d.cache, seq(|paths|, _ => false)), Ok(n.getGop(paths, ids)))
    else
      var hits := Hits(d.cache, paths, ids);
      if AllTrue(hits) then (Cached(d.cache, hits), MergeCached(d.cache, paths, n.merge))
      else
        var stored := Store(d.cache, paths, n.getGopList(paths, ids));
        match stored.1
        case Some(e) => (Cached(stored.0, hits), Err(e))
        case None => (Cached(stored.0, hits), MergeCached(stored.0, paths, n.merge))
  }

  /** With every path hitting, GetGOP fetches nothing and answers from the
      cache; with a single path the bundle is the cached one. */
  lemma AllHitServedFromCache<P>(d: Cached<P>, n: Native<P>, paths: seq<string>, ids: seq<int>)
    requires |paths| == |ids|
    requires forall i :: 0 <= i < |paths| ==> IsCacheHit(d.cache, paths[i], ids[i])
    ensures var r := GetGop(d, n, paths, ids, true);
            r.0.cache == d.cache && r.1.Ok? &&
            r.1.value.1 == seq(|paths|, i requires 0 <= i < |paths| => d.cache[paths[i]].first) &&
            (|paths| == 1 ==> r.1.value.0 == d.cache[paths[0]].packets)
  {
    assert AllTrue(Hits(d.cache, paths, ids));
  }

  /** A single miss makes GetGOP overwrite the entry of every requested
      path, hits included, when the native call answers each file. */
  lemma AnyMissRefetchesAll<P>(d: Cached<P>, n: Native<P>, paths: seq<string>, ids: seq<int>, k: int)
    requires 0 <= k < |paths| && k < |ids| && !IsCacheHit(d.cache, paths[k], ids[k])
    requires |n.getGopList(paths, ids)| >= |paths|
    requires forall i :: 0 <= i < |paths| ==>
               |n.getGopList(paths, ids)[i].firsts| > 0 && |n.getGopList(paths, ids)[i].lens| > 0
    ensures var r := GetGop(d, n, paths, ids, true);
            r.1.Ok? &&
            forall i :: 0 <= i < |paths| && LastOccurrence(paths, i) ==>
              r.0.cache[paths[i]] == EntryOf(n.getGopList(paths, ids)[i])
  {
    var hits := Hits(d.cache, paths, ids);
    assert !hits[k];
    StoreCompletes(d.cache, paths, n.getGopList(paths, ids));
  }

  /** When every result has its lists, storing raises nothing. */
  lemma {:induction false} StoreCompletes<P>(cache: map<string, Entry<P>>, paths: seq<string>, results: seq<Gop<P>>)
    requires |results| >= |paths|
    requires forall i :: 0 <= i < |paths| ==> |results[i].firsts| > 0 && |results[i].lens| > 0
    ensures Store(cache, paths, results).1.None?
    decreases |paths|
  {
    if |paths| > 0 {
      StoreCompletes(cache[paths[0] := EntryOf(results[0])], paths[1..], results[1..]);
    }
  }

  /* ---------- GetGOPList ---------- */

  /** The positions whose pair missed, in order. */
  function MissIndices(hits: seq<bool>): (r: seq<nat>)
    ensures forall k :: 0 <= k < |r| ==> r[k] < |hits| && !hits[r[k]]
    ensures forall i :: 0 <= i < |hits| && !hits[i] ==> i in r
    ensures forall a, b :: 0 <= a < b < |r| ==> r[a] < r[b]
    ensures r == [] <==> AllTrue(hits)
  {
    if |hits| == 0 then []
    else
      var rest := MissIndices(hits[..|hits| - 1]);
      if hits[|hits| - 1] then rest else rest + [|hits| - 1]
  }

  /** The paths of the missed pairs, in request order: what GetGOPList
      hands to the native call. */
  function MissPaths<P>(cache: map<string, Entry<P>>, paths: seq<string>, ids: seq<int>): (r: seq<string>)
    ensures var miss := MissIndices(Hits(cache, paths, ids));
            |r| == |miss| && forall k :: 0 <= k < |r| ==> r[k] == paths[miss[k]] && !IsCacheHit(cache, r[k], ids[miss[k]])
  {
    var miss := MissIndices(Hits(cache, paths, ids));
    seq(|miss|, k requires 0 <= k < |miss| => paths[miss[k]])
  }

  /** The frame ids of the missed pairs, in request order. */
  function MissIds<P>(cache: map<string, Entry<P>>, paths: seq<string>, ids: seq<int>): (r: seq<int>)
    ensures var miss := MissIndices(Hits(cache, paths, ids));
            |r| == |miss| && forall k :: 0 <= k < |r| ==> r[k] == ids[miss[k]] && !IsCacheHit(cache, paths[miss[k]], r[k])
  {
    var miss := MissIndices(Hits(cache, paths, ids));
    seq(|miss|, k requires 0 <= k < |miss| => ids[miss[k]])
  }

  /** The requested entries in GetGOPList's per-file form. */
  function AsGopList<P>(es: seq<Entry<P>>): (r: seq<Gop<P>>)
    ensures |r| == |es|
    ensures forall i :: 0 <= i < |es| ==> r[i] == Gop(es[i].packets, [es[i].first], [es[i].len])
  {
    seq(|es|, i requires 0 <= i < |es| => Gop(es[i].packets, [es[i].first], [es[i].len]))
  }

  /** GetGOPList. Without the cache: record all misses and call the native
      GetGOPList. With it: fetch only the missed pairs, store their results,
      then answer every path from the cache in request order. */
  function GetGopList<P>(d: Cached<P>, n: Native<P>, paths: seq<string>, ids: seq<int>, useCache: bool)
    : (r: (Cached<P>, Result<seq<Gop<P>>, CacheError>))
    ensures !useCache ==> r == (Cached(d.cache, seq(|paths|, _ => false)), Ok(n.getGopList(paths, ids)))
    ensures useCache ==> r.0.lastHits == Hits(d.cache, paths, ids)
    ensures useCache && AllTrue(Hits(d.cache, paths, ids)) ==> r.0.cache == d.cache
    ensures useCache ==>
              forall p :: (forall k :: 0 <= k < |paths| && k < |ids| && !IsCacheHit(d.cache, paths[k], ids[k]) ==> paths[k] != p) ==>
                (p in r.0.cache <==> p in d.cache) && (p in d.cache ==> r.0.cache[p] == d.cache[p])
    ensures useCache && r.1.Ok? ==>
              |r.1.value| == |paths| &&
              forall i :: 0 <= i < |paths| ==>
                paths[i] in r.0.cache &&
                r.1.value[i] == Gop(r.0.cache[paths[i]].packets, [r.0.cache[paths[i]].first], [r.0.cache[paths[i]].len])
  {
    if !useCache then (Cached(d.cache, seq(|paths|, _ => false)), Ok(n.getGopList(paths, ids)))
    else
      var hits := Hits(d.cache, paths, ids);
      var miss := MissIndices(hits);
      var stored :=
        if |miss| == 0 then (d.cache, None)
        else
          var missPaths := MissPaths(d.cache, paths, ids);
          Store(d.cache, missPaths, n.getGopList(missPaths, MissIds(d.cache, paths, ids)));
      if stored.1.Some? then (Cached(stored.0, hits), Err(stored.1.value))
      else
        match Lookup(stored.0, paths)
        case Err(e) => (Cached(stored.0, hits), Err(e))
        case Ok(es) => (Cached(stored.0, hits), Ok(AsGopList(es)))
  }

  /** A second cached GetGOPList for the same request, after a first one
      whose native answers held the requested frames, is served entirely
      from the cache: every pair hits, nothing is fetched, the cache is
      unchanged and the answer is the same. */
  lemma RepeatIsAllHit<P>(d: Cached<P>, n: Native<P>, paths: seq<string>, ids: seq<int>)
    requires |paths| == |ids|
    requires forall i, j :: 0 <= i < j < |paths| ==> paths[i] != paths[j]
    requires var r := GetGopList(d, n, paths, ids, true);
             r.1.Ok? && forall i :: 0 <= i < |paths| ==> IsCacheHit(r.0.cache, paths[i], ids[i])
    ensures var r := GetGopList(d, n, paths, ids, true);
            var r2 := GetGopList(r.0, n, paths, ids, true);
            AllTrue(r2.0.lastHits) && r2.0.cache == r.0.cache && r2.1 == r.1
  {
    var r := GetGopList(d, n, paths, ids, true);
    assert AllTrue(Hits(r.0.cache, paths, ids));
  }

  /** A cached GetGOPList whose every pair hits succeeds without fetching:
      the cache is unchanged and each path is answered with its cached GOP. */
  lemma AllHitListServedFromCache<P>(d: Cached<P>, n: Native<P>, paths: seq<string>, ids: seq<int>)
    requires |paths| <= |ids| && AllTrue(Hits(d.cache, paths, ids))
    ensures var r := GetGopList(d, n, paths, ids, true);
            r.0.cache == d.cache && r.1.Ok? && |r.1.value| == |paths| &&
            forall i :: 0 <= i < |paths| ==>
              r.1.value[i] == Gop(d.cache[paths[i]].packets, [d.cache[paths[i]].first], [d.cache[paths[i]].len])
  {
    var hits := Hits(d.cache, paths, ids);
    assert forall i :: 0 <= i < |paths| ==> hits[i] && paths[i] in d.cache;
  }

  /** When the native GetGOPList answers every missed pair with non-empty
      lists, a cached GetGOPList succeeds; the last fetch of each missed
      path becomes its entry, and that path's answer at the missed position
      is the fetched GOP's first element. */
  lemma MissesFetchedAndStored<P>(d: Cached<P>, n: Native<P>, paths: seq<string>, ids: seq<int>)
    requires |paths| <= |ids|
    requires var mp := MissPaths(d.cache, paths, ids);
             var f := n.getGopList(mp, MissIds(d.cache, paths, ids));
             |f| >= |mp| && forall k :: 0 <= k < |mp| ==> |f[k].firsts| > 0 && |f[k].lens| > 0
    ensures var r := GetGopList(d, n, paths, ids, true);
            var miss := MissIndices(Hits(d.cache, paths, ids));
            var mp := MissPaths(d.cache, paths, ids);
            var f := n.getGopList(mp, MissIds(d.cache, paths, ids));
            r.1.Ok? &&
            forall k :: 0 <= k < |mp| && LastOccurrence(mp, k) ==>
              r.0.cache[mp[k]] == EntryOf(f[k]) &&
              r.1.value[miss[k]] == Gop(f[k].packets, [f[k].firsts[0]], [f[k].lens[0]])
  {
    var hits := Hits(d.cache, paths, ids);
    var miss := MissIndices(hits);
    var mp := MissPaths(d.cache, paths, ids);
    var f := n.getGopList(mp, MissIds(d.cache, paths, ids));
    if |miss| == 0 {
      AllHitListServedFromCache(d, n, paths, ids);
    } else {
      StoreCompletes(d.cache, mp, f);
      var st := Store(d.cache, mp, f);
      forall i | 0 <= i < |paths| ensures paths[i] in st.0 {
        if hits[i] {
          assert paths[i] in d.cache;
        } else {
          assert i in miss;
          var k :| 0 <= k < |miss| && miss[k] == i;
          assert mp[k] == paths[i];
        }
      }
      assert Lookup(st.0, paths).Ok?;
      var r := GetGopList(d, n, paths, ids, true);
      assert r.0.cache == st.0 && r.1.Ok?;
      forall k | 0 <= k < |mp| && LastOccurrence(mp, k)
        ensures r.0.cache[mp[k]] == EntryOf(f[k])
        ensures r.1.value[miss[k]] == Gop(f[k].packets, [f[k].firsts[0]], [f[k].lens[0]])
      {
        var i := miss[k];
        assert mp[k] == paths[i];
        assert st.0[mp[k]] == EntryOf(f[k]);
      }
    }
  }
}
