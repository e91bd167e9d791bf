/** The GOP index of one file: key-frame ordinals collected by demuxing the
    whole file once (parse_gop_start_idx), the GOP ranges that a sorted batch
    of requested frames touches (parse_gop_length), the binary searches both
    rely on, and the duplicate check on frame lists. */
module GopIndex {
  import opened Common
  import opened Nal

  /** The exceptions raised while building or querying the index. */
  datatype IndexError =
    | DemuxFailed                 // std::invalid_argument "Demux error"
    | CodecUnsupported(id: int)   // std::domain_error from the key-frame classifier
    | EndBeyondLastGop            // std::out_of_range: a frame at or past the last GOP end
    | NoGopForFrame(frame: int)   // std::out_of_range: a frame before the first GOP start

  /* ---------- Binary searches (std::upper_bound, std::lower_bound) ---------- */

  /** std::upper_bound over s[lo..hi]: the first position whose element
      exceeds x, everything before lo being known not to. */
  function UpperBoundIn(s: seq<int>, x: int, lo: nat, hi: nat): (r: nat)
    requires Sorted(s) && lo <= hi <= |s|
    requires forall i :: 0 <= i < lo ==> s[i] <= x
    requires forall i :: hi <= i < |s| ==> s[i] > x
    ensures lo <= r <= hi
    ensures forall i :: 0 <= i < r ==> s[i] <= x
    ensures forall i :: r <= i < |s| ==> s[i] > x
    decreases hi - lo
  {
    if lo == hi then lo
    else
      var mid := lo + (hi - lo) / 2;
      if s[mid] <= x then UpperBoundIn(s, x, mid + 1, hi) else UpperBoundIn(s, x, lo, mid)
  }

  /** The first position of sorted s whose element exceeds x (|s| if none). */
  function UpperBound(s: seq<int>, x: int): (r: nat)
    requires Sorted(s)
    ensures r <= |s|
    ensures forall i :: 0 <= i < r ==> s[i] <= x
    ensures forall i :: r <= i < |s| ==> s[i] > x
  {
    UpperBoundIn(s, x, 0, |s|)
  }

  /** std::lower_bound over s[lo..hi]: the first position whose element is
      not below x. */
  function LowerBoundIn(s: seq<int>, x: int, lo: nat, hi: nat): (r: nat)
    requires Sorted(s) && lo <= hi <= |s|
    requires forall i :: 0 <= i < lo ==> s[i] < x
    requires forall i :: hi <= i < |s| ==> s[i] >= x
    ensures lo <= r <= hi
    ensures forall i :: 0 <= i < r ==> s[i] < x
    ensures forall i :: r <= i < |s| ==> s[i] >= x
    decreases hi - lo
  {
    if lo == hi then lo
    else
      var mid := lo + (hi - lo) / 2;
      if s[mid] < x then LowerBoundIn(s, x, mid + 1, hi) else LowerBoundIn(s, x, lo, mid)
  }

  /** The first position of sorted s whose element is at least x (|s| if none). */
  function LowerBound(s: seq<int>, x: int): (r: nat)
    requires Sorted(s)
    ensures r <= |s|
    ensures forall i :: 0 <= i < r ==> s[i] < x
    ensures forall i :: r <= i < |s| ==> s[i] >= x
  {
    LowerBoundIn(s, x, 0, |s|)
  }

  /* ---------- Collecting (timestamp, is-key) pairs ---------- */

  /** One call of FFmpegDemuxer::Demux: its return value, the packet bytes
      (empty at end of stream), the timestamp and the packet flags. */
  datatype DemuxedPacket = DemuxedPacket(ok: bool, data: seq<Byte>, timestamp: int, flags: bv32)

  /** A (timestamp, is-key-frame) pair, as pts_keyFrame_pair holds them. */
  type TsKey = (int, bool)

  /** Every packet the collection loop classifies can be read by the
      classifier: the loop stops at the first empty packet and raises before
      reading a packet whose demux call failed. */
  predicate ReadableUntilEnd(codec: Codec, packets: seq<DemuxedPacket>) {
    |packets| == 0 || |packets[0].data| == 0 || !packets[0].ok ||
    (Readable(codec, packets[0].data) && ReadableUntilEnd(codec, packets[1..]))
  }

  /** The do-while demux loop of parse_gop_start_idx. The end of the given
      packet sequence acts as the demuxer's end of stream. */
  function CollectPairs(codec: Codec, packets: seq<DemuxedPacket>): (r: Result<seq<TsKey>, IndexError>)
    requires ReadableUntilEnd(codec, packets)
    ensures r.Ok? ==> |r.value| <= |packets|
    ensures r.Ok? ==> |r.value| == |packets| || |packets[|r.value|].data| == 0
    ensures r.Ok? ==> forall i :: 0 <= i < |r.value| ==>
              packets[i].ok && |packets[i].data| > 0 && Readable(codec, packets[i].data) &&
              IsKeyFrame(codec, Some(packets[i].data), packets[i].flags).Ok? &&
              r.value[i] == (packets[i].timestamp, IsKeyFrame(codec, Some(packets[i].data), packets[i].flags).value)
    ensures r.Err? ==> r.error == DemuxFailed || (r.error.CodecUnsupported? && codec == OtherCodec(r.error.id))
    decreases |packets|
  {
    if |packets| == 0 || |packets[0].data| == 0 then Ok([])
    else if !packets[0].ok then Err(DemuxFailed)
    else
      match IsKeyFrame(codec, Some(packets[0].data), packets[0].flags)
      case Err(UnsupportedCodec(id)) => Err(CodecUnsupported(id))
      case Ok(isKey) =>
        match CollectPairs(codec, packets[1..])
        case Err(e) => Err(e)
        case Ok(rest) => Ok([(packets[0].timestamp, isKey)] + rest)
  }

  /* ---------- Sorting by timestamp ---------- */

  predicate SortedByTs(s: seq<TsKey>) {
    forall i, j :: 0 <= i <= j < |s| ==> s[i].0 <= s[j].0
  }

  /** Inserts x after every element whose timestamp is not larger. */
  function InsertByTs(x: TsKey, s: seq<TsKey>): (r: seq<TsKey>)
    requires SortedByTs(s)
    ensures SortedByTs(r)
    ensures multiset(r) == multiset(s) + multiset{x}
    ensures |r| == |s| + 1 && (r[0] == x || (|s| > 0 && r[0] == s[0]))
  {
    if |s| == 0 then [x]
    else if x.0 < s[0].0 then [x] + s
    else
      var rest := InsertByTs(x, s[1..]);
      assert s == [s[0]] + s[1..];
      assert s[0].0 <= rest[0].0;
      [s[0]] + rest
  }

  /** The std::sort call. std::sort is not stable; this insertion sort is,
      so pairs with equal timestamps keep their demux order. Everything the
      index promises below is proved for ANY timestamp-sorted permutation. */
  function SortByTimestamp(s: seq<TsKey>): (r: seq<TsKey>)
    ensures SortedByTs(r)
    ensures multiset(r) == multiset(s)
  {
    if |s| == 0 then []
    else
      assert s == s[..|s| - 1] + [s[|s| - 1]];
      InsertByTs(s[|s| - 1], SortByTimestamp(s[..|s| - 1]))
  }

  /* ---------- parse_gop_start_idx ---------- */

  /** j is the last position among the first n whose timestamp is t: the
      entry pts2frame[t] keeps when equal timestamps are written in order. */
  predicate LastWriter(s: seq<TsKey>, n: int, t: int, j: int)
    requires 0 <= n <= |s|
  {
    0 <= j < n && s[j].0 == t && forall m :: j < m < n ==> s[m].0 != t
  }

  /** The frame-to-timestamp map after the first n ordinals are written. */
  ghost predicate Frame2PtsWritten(s: seq<TsKey>, n: int, before: map<int, int>, after: map<int, int>)
    requires 0 <= n <= |s|
  {
    (forall k :: k in after <==> k in before || 0 <= k < n) &&
    (forall i :: 0 <= i < n ==> after[i] == s[i].0) &&
    (forall k :: k in before && !(0 <= k < n) ==> after[k] == before[k])
  }

  /** The timestamp-to-frame map after the first n ordinals are written:
      each timestamp maps to the last ordinal that carries it. */
  ghost predicate Pts2FrameWritten(s: seq<TsKey>, n: int, before: map<int, int>, after: map<int, int>)
    requires 0 <= n <= |s|
  {
    (forall t :: t in after <==> t in before || exists i :: 0 <= i < n && s[i].0 == t) &&
    (forall i :: 0 <= i < n ==> LastWriter(s, n, s[i].0, after[s[i].0])) &&
    (forall t :: t in before && (forall i :: 0 <= i < n ==> s[i].0 != t) ==> after[t] == before[t])
  }

  /** The GOP-start list the loop emits for the first n sorted pairs: the
      key ordinals in increasing order. */
  predicate KeyOrdinals(s: seq<TsKey>, n: int, starts: seq<int>)
    requires 0 <= n <= |s|
  {
    StrictlyIncreasing(starts) &&
    (forall k :: 0 <= k < |starts| ==> 0 <= starts[k] < n && s[starts[k]].1) &&
    (forall i :: 0 <= i < n && s[i].1 ==> i in starts)
  }

  lemma Frame2PtsStep(s: seq<TsKey>, n: int, before: map<int, int>, after: map<int, int>)
    requires 0 <= n < |s|
    requires Frame2PtsWritten(s, n, before, after)
    ensures Frame2PtsWritten(s, n + 1, before, after[n := s[n].0])
  {
  }

  lemma Pts2FrameStep(s: seq<TsKey>, n: int, before: map<int, int>, after: map<int, int>)
    requires 0 <= n < |s|
    requires Pts2FrameWritten(s, n, before, after)
    ensures Pts2FrameWritten(s, n + 1, before, after[s[n].0 := n])
  {
    var after' := after[s[n].0 := n];
    forall t
      ensures t in after' <==> t in before || exists i :: 0 <= i < n + 1 && s[i].0 == t
    {
      if t == s[n].0 {
        assert 0 <= n < n + 1 && s[n].0 == t;
      }
    }
    forall i | 0 <= i < n + 1
      ensures LastWriter(s, n + 1, s[i].0, after'[s[i].0])
    {
      if s[i].0 != s[n].0 {
        assert LastWriter(s, n, s[i].0, after[s[i].0]);
      }
    }
  }

  lemma KeyOrdinalsStep(s: seq<TsKey>, n: int, starts: seq<int>)
    requires 0 <= n < |s|
    requires KeyOrdinals(s, n, starts)
    ensures KeyOrdinals(s, n + 1, if s[n].1 then starts + [n] else starts)
  {
    if s[n].1 {
      var st := starts + [n];
      forall i, j | 0 <= i < j < |st| ensures st[i] < st[j] {
        if j < |starts| {
          assert st[i] == starts[i] && st[j] == starts[j];
        } else {
          assert st[i] == starts[i] < n;
        }
      }
      forall k | 0 <= k < |st| ensures 0 <= st[k] < n + 1 && s[st[k]].1 {
        if k < |starts| {
          assert st[k] == starts[k];
        }
      }
      forall i | 0 <= i < n + 1 && s[i].1 ensures i in st {
        if i < n {
          assert i in starts;
        } else {
          assert st[|starts|] == n;
        }
      }
    }
  }

  /** The loop of parse_gop_start_idx over the sorted pairs, with its final
      sentinel. The maps are only written for variable-frame-rate input. */
  method GopStartsOfSorted(sorted: seq<TsKey>, isVfr: bool, frame2pts: map<int, int>, pts2frame: map<int, int>)
    returns (starts: seq<int>, f2p: map<int, int>, p2f: map<int, int>)
    ensures |starts| >= 1 && Last(starts) == |sorted|
    ensures StrictlyIncreasing(starts)
    ensures KeyOrdinals(sorted, |sorted|, starts[..|starts| - 1])
    ensures forall i :: 0 <= i < |sorted| ==> (sorted[i].1 <==> i in starts)
    ensures isVfr ==> Frame2PtsWritten(sorted, |sorted|, frame2pts, f2p)
    ensures isVfr ==> Pts2FrameWritten(sorted, |sorted|, pts2frame, p2f)
    ensures !isVfr ==> f2p == frame2pts && p2f == pts2frame
  {
    starts := [];
    f2p, p2f := frame2pts, pts2frame;
    var idx := 0;
    while idx < |sorted|
      invariant 0 <= idx <= |sorted|
      invariant KeyOrdinals(sorted, idx, starts)
      invariant isVfr ==> Frame2PtsWritten(sorted, idx, frame2pts, f2p)
      invariant isVfr ==> Pts2FrameWritten(sorted, idx, pts2frame, p2f)
      invariant !isVfr ==> f2p == frame2pts && p2f == pts2frame
    {
      var ts := sorted[idx].0;
      if isVfr {
        Frame2PtsStep(sorted, idx, frame2pts, f2p);
        Pts2FrameStep(sorted, idx, pts2frame, p2f);
        f2p := f2p[idx := ts];
        p2f := p2f[ts := idx];
      }
      KeyOrdinalsStep(sorted, idx, starts);
      if sorted[idx].1 {
        starts := starts + [idx];
      }
      idx := idx + 1;
    }
    var keys := starts;
    starts := starts + [idx];
    assert starts[..|starts| - 1] == keys;
  }

  /** parse_gop_start_idx: demux the whole file, sort the pairs by
      timestamp, and list the key ordinals followed by the packet count. The
      source's final "at least one GOP" size check can never fire: the list
      always holds the sentinel. */
  method ParseGopStartIdx(codec: Codec, packets: seq<DemuxedPacket>, isVfr: bool,
                          frame2pts: map<int, int>, pts2frame: map<int, int>)
    returns (r: Result<(seq<int>, map<int, int>, map<int, int>), IndexError>)
    requires ReadableUntilEnd(codec, packets)
    ensures r.Err? <==> CollectPairs(codec, packets).Err?
    ensures r.Ok? ==>
              var pairs := CollectPairs(codec, packets).value;
              var sorted := SortByTimestamp(pairs);
              var (starts, f2p, p2f) := r.value;
              |starts| >= 1 && Last(starts) == |pairs| && StrictlyIncreasing(starts) &&
              KeyOrdinals(sorted, |sorted|, starts[..|starts| - 1]) &&
              (isVfr ==> Frame2PtsWritten(sorted, |sorted|, frame2pts, f2p) &&
                         Pts2FrameWritten(sorted, |sorted|, pts2frame, p2f)) &&
              (!isVfr ==> f2p == frame2pts && p2f == pts2frame)
  {
    var collected := CollectPairs(codec, packets);
    if collected.Err? {
      return Err(collected.error);
    }
    var sorted := SortByTimestamp(collected.value);
    assert |sorted| == |collected.value| by {
      assert |multiset(sorted)| == |multiset(collected.value)|;
    }
    var starts, f2p, p2f := GopStartsOfSorted(sorted, isVfr, frame2pts, pts2frame);
    r := Ok((starts, f2p, p2f));
  }

  /** With distinct timestamps and empty maps to start from, the two maps
      parse_gop_start_idx writes for variable-frame-rate input are inverse
      bijections between ordinals and timestamps. */
  lemma DistinctTimestampsGiveInverseMaps(sorted: seq<TsKey>, f2p: map<int, int>, p2f: map<int, int>)
    requires forall i, j :: 0 <= i < j < |sorted| ==> sorted[i].0 != sorted[j].0
    requires Frame2PtsWritten(sorted, |sorted|, map[], f2p)
    requires Pts2FrameWritten(sorted, |sorted|, map[], p2f)
    ensures forall i :: 0 <= i < |sorted| ==> i in f2p && f2p[i] in p2f && p2f[f2p[i]] == i
    ensures forall t :: t in p2f ==> p2f[t] in f2p && f2p[p2f[t]] == t
  {
    forall i | 0 <= i < |sorted|
      ensures i in f2p && f2p[i] in p2f && p2f[f2p[i]] == i
    {
      assert f2p[i] == sorted[i].0;
      assert LastWriter(sorted, |sorted|, sorted[i].0, p2f[sorted[i].0]);
    }
    forall t | t in p2f
      ensures p2f[t] in f2p && f2p[p2f[t]] == t
    {
      var i :| 0 <= i < |sorted| && sorted[i].0 == t;
      assert LastWriter(sorted, |sorted|, sorted[i].0, p2f[sorted[i].0]);
    }
  }

  /* ---------- parse_gop_length ---------- */

  /** first and len describe the GOP [starts[k-1], starts[k]) for some k. */
  predicate IsGopOf(starts: seq<int>, first: int, len: int) {
    exists k :: 1 <= k < |starts| && first == starts[k - 1] && len == starts[k] - starts[k - 1]
  }

  /** Frame x lies in one of the emitted GOPs. */
  ghost predicate InSomeGop(x: int, lens: seq<int>, emitted: seq<int>) {
    exists j :: 0 <= j < |lens| && j < |emitted| && emitted[j] <= x < emitted[j] + lens[j]
  }

  /** The GOP [first, first + len) holds one of the frames. */
  ghost predicate HoldsSomeFrame(frames: seq<int>, first: int, len: int) {
    exists i :: 0 <= i < |frames| && first <= frames[i] < first + len
  }

  /** What the emitted GOPs promise for a batch of sorted frames: each is a
      GOP of the index and non-empty, they ascend without overlapping, every
      frame lies in one of them, and each holds at least one frame. */
  ghost predicate CoversFrames(starts: seq<int>, frames: seq<int>, lens: seq<int>, emitted: seq<int>) {
    |lens| == |emitted| &&
    (forall j :: 0 <= j < |lens| ==> IsGopOf(starts, emitted[j], lens[j]) && lens[j] > 0) &&
    (forall a, b :: 0 <= a < b < |lens| ==> emitted[a] + lens[a] <= emitted[b]) &&
    (forall i :: 0 <= i < |frames| ==> InSomeGop(frames[i], lens, emitted)) &&
    (forall j :: 0 <= j < |lens| ==> HoldsSomeFrame(frames, emitted[j], lens[j]))
  }

  /** GOP j of the emitted list runs from starts[ks[j] - 1] up to starts[ks[j]],
      and the ks strictly ascend. */
  ghost predicate GopRanges(starts: seq<int>, lens: seq<int>, emitted: seq<int>, ks: seq<int>) {
    |ks| == |lens| == |emitted| &&
    (forall j {:trigger ks[j]} :: 0 <= j < |ks| ==>
       1 <= ks[j] < |starts| && emitted[j] == starts[ks[j] - 1] && lens[j] == starts[ks[j]] - starts[ks[j] - 1]) &&
    (forall a, b :: 0 <= a < b < |ks| ==> ks[a] < ks[b])
  }

  /** The loop state of parse_gop_length once the frames before i are
      handled: ks[j] indexes the end of emitted GOP j in starts, each handled
      frame lies in an emitted GOP, each emitted GOP holds a frame, and the
      next frame is past the last emitted GOP. */
  ghost predicate EmitState(starts: seq<int>, frames: seq<int>, i: int, lens: seq<int>, emitted: seq<int>, ks: seq<int>)
  {
    0 <= i <= |frames| &&
    GopRanges(starts, lens, emitted, ks) &&
    (forall i' :: 0 <= i' < i ==> InSomeGop(frames[i'], lens, emitted)) &&
    (forall j :: 0 <= j < |lens| ==> HoldsSomeFrame(frames, emitted[j], lens[j])) &&
    (i == 0 <==> |ks| == 0) &&
    (0 < i < |frames| ==> frames[i] >= starts[ks[|ks| - 1]])
  }

  /** Past the first frame, every frame has a GOP start at or before it. */
  lemma LaterFramesHaveGop(starts: seq<int>, frames: seq<int>, i: int, lens: seq<int>, emitted: seq<int>, ks: seq<int>)
    requires Sorted(starts) && Sorted(frames)
    requires EmitState(starts, frames, i, lens, emitted, ks)
    requires 0 < i < |frames|
    ensures UpperBound(starts, frames[i]) > 0
  {
    assert starts[0] <= starts[ks[|ks| - 1]];
  }

  /** Appending a GOP keeps every earlier frame inside the emitted list. */
  lemma InSomeGopGrows(x: int, lens: seq<int>, emitted: seq<int>, len: int, first: int)
    requires InSomeGop(x, lens, emitted)
    ensures InSomeGop(x, lens + [len], emitted + [first])
  {
    var j :| 0 <= j < |lens| && j < |emitted| && emitted[j] <= x < emitted[j] + lens[j];
    assert (emitted + [first])[j] == emitted[j] && (lens + [len])[j] == lens[j];
  }

  lemma GopRangesStep(starts: seq<int>, frames: seq<int>, i: int, lens: seq<int>, emitted: seq<int>, ks: seq<int>, k: int)
    requires Sorted(starts)
    requires EmitState(starts, frames, i, lens, emitted, ks)
    requires 1 <= k < |starts| && i < |frames| && frames[i] < starts[k]
    ensures GopRanges(starts, lens + [starts[k] - starts[k - 1]], emitted + [starts[k - 1]], ks + [k])
  {
    if |ks| > 0 {
      var last := ks[|ks| - 1];
      assert starts[last] <= frames[i] < starts[k];
      assert last < k;
    }
  }

  lemma CoverStep(frames: seq<int>, i: int, lens: seq<int>, emitted: seq<int>, lo: int, hi: int, next: int)
    requires Sorted(frames) && 0 <= i < next <= |frames| && |lens| == |emitted|
    requires forall i' :: 0 <= i' < i ==> InSomeGop(frames[i'], lens, emitted)
    requires lo <= frames[i] && forall i' :: i <= i' < next ==> frames[i'] < hi
    ensures forall i' :: 0 <= i' < next ==> InSomeGop(frames[i'], lens + [hi - lo], emitted + [lo])
  {
    var lens', emitted' := lens + [hi - lo], emitted + [lo];
    forall i' | 0 <= i' < next
      ensures InSomeGop(frames[i'], lens', emitted')
    {
      if i' < i {
        InSomeGopGrows(frames[i'], lens, emitted, hi - lo, lo);
      } else {
        assert frames[i] <= frames[i'];
        assert emitted'[|lens|] <= frames[i'] < emitted'[|lens|] + lens'[|lens|];
      }
    }
  }

  lemma HoldsStep(frames: seq<int>, i: int, lens: seq<int>, emitted: seq<int>, lo: int, hi: int)
    requires |lens| == |emitted| && 0 <= i < |frames| && lo <= frames[i] < hi
    requires forall j :: 0 <= j < |lens| ==> HoldsSomeFrame(frames, emitted[j], lens[j])
    ensures forall j :: 0 <= j < |lens| + 1 ==> HoldsSomeFrame(frames, (emitted + [lo])[j], (lens + [hi - lo])[j])
  {
    var lens', emitted' := lens + [hi - lo], emitted + [lo];
    forall j | 0 <= j < |lens'|
      ensures HoldsSomeFrame(frames, emitted'[j], lens'[j])
    {
      if j == |lens| {
        assert lo <= frames[i] < lo + (hi - lo);
      } else {
        assert emitted'[j] == emitted[j] && lens'[j] == lens[j];
      }
    }
  }

  /** One iteration: emit the GOP [starts[k - 1], starts[k]) that holds
      frames[i] and skip every frame up to next, the first one past it. */
  lemma EmitStep(starts: seq<int>, frames: seq<int>, i: int, lens: seq<int>, emitted: seq<int>, ks: seq<int>,
                 k: int, next: int)
    requires Sorted(starts) && Sorted(frames)
    requires EmitState(starts, frames, i, lens, emitted, ks)
    requires 1 <= k < |starts| && i < next <= |frames|
    requires starts[k - 1] <= frames[i]
    requires forall i' :: i <= i' < next ==> frames[i'] < starts[k]
    requires next < |frames| ==> frames[next] >= starts[k]
    ensures EmitState(starts, frames, next, lens + [starts[k] - starts[k - 1]], emitted + [starts[k - 1]], ks + [k])
  {
    var lens', emitted', ks' := lens + [starts[k] - starts[k - 1]], emitted + [starts[k - 1]], ks + [k];
    GopRangesStep(starts, frames, i, lens, emitted, ks, k);
    CoverStep(frames, i, lens, emitted, starts[k - 1], starts[k], next);
    HoldsStep(frames, i, lens, emitted, starts[k - 1], starts[k]);
    assert ks'[|ks'| - 1] == k;
    EmitStateIntro(starts, frames, next, lens', emitted', ks');
  }

  lemma EmitStateIntro(starts: seq<int>, frames: seq<int>, i: int, lens: seq<int>, emitted: seq<int>, ks: seq<int>)
    requires 0 <= i <= |frames|
    requires GopRanges(starts, lens, emitted, ks)
    requires forall i' :: 0 <= i' < i ==> InSomeGop(frames[i'], lens, emitted)
    requires forall j :: 0 <= j < |lens| ==> HoldsSomeFrame(frames, emitted[j], lens[j])
    requires i == 0 <==> |ks| == 0
    requires 0 < i < |frames| ==> frames[i] >= starts[ks[|ks| - 1]]
    ensures EmitState(starts, frames, i, lens, emitted, ks)
  {
  }

  /** When the loop has handled every frame, the emitted GOPs cover them. */
  lemma EmitDone(starts: seq<int>, frames: seq<int>, lens: seq<int>, emitted: seq<int>, ks: seq<int>)
    requires Sorted(starts)
    requires EmitState(starts, frames, |frames|, lens, emitted, ks)
    ensures CoversFrames(starts, frames, lens, emitted)
  {
    forall j | 0 <= j < |lens|
      ensures IsGopOf(starts, emitted[j], lens[j]) && lens[j] > 0
    {
      assert 1 <= ks[j] < |starts|;
      assert starts[ks[j] - 1] <= starts[ks[j]];
    }
    forall a, b | 0 <= a < b < |lens|
      ensures emitted[a] + lens[a] <= emitted[b]
    {
      assert ks[a] <= ks[b] - 1;
    }
  }

  /** The loop of parse_gop_length: for each frame not yet covered, the GOP
      [starts[k - 1], starts[k]) holding it, with k from upper_bound, then a
      jump past it with lower_bound. None when a frame precedes every start. */
  method EmitGops(starts: seq<int>, frames: seq<int>) returns (r: Option<(seq<int>, seq<int>)>)
    requires |starts| > 0 && Sorted(starts)
    requires |frames| > 0 && Sorted(frames) && Last(frames) < Last(starts)
    ensures r.None? <==> frames[0] < starts[0]
    ensures r.Some? ==> CoversFrames(starts, frames, r.value.0, r.value.1)
  {
    var lens: seq<int> := [];
    var emitted: seq<int> := [];
    ghost var ks: seq<int> := [];
    var i := 0;
    while i < |frames|
      invariant EmitState(starts, frames, i, lens, emitted, ks)
      invariant i > 0 ==> starts[0] <= frames[0]
      decreases |frames| - i
    {
      var k := UpperBound(starts, frames[i]);
      if k == 0 {
        if i > 0 {
          LaterFramesHaveGop(starts, frames, i, lens, emitted, ks);
        }
        return None;
      }
      assert frames[i] <= Last(frames) < Last(starts);
      var next := LowerBound(frames, starts[k]);
      assert i < next;
      EmitStep(starts, frames, i, lens, emitted, ks, k, next);
      assert i == 0 ==> starts[0] <= starts[k - 1] <= frames[0];
      lens := lens + [starts[k] - starts[k - 1]];
      emitted := emitted + [starts[k - 1]];
      ks := ks + [k];
      i := next;
    }
    EmitDone(starts, frames, lens, emitted, ks);
    r := Some((lens, emitted));
  }

  /** parse_gop_length: one (first frame, length) per GOP the sorted frames
      touch, appended to firstIdsIn, with the lengths returned alongside. */
  method ParseGopLength(starts: seq<int>, frames: seq<int>, firstIdsIn: seq<int>)
    returns (r: Result<(seq<int>, seq<int>), IndexError>)
    requires |starts| > 0 && Sorted(starts)
    requires |frames| > 0 && Sorted(frames)
    ensures r == Err(EndBeyondLastGop) <==> Last(frames) >= Last(starts)
    ensures r == Err(NoGopForFrame(frames[0])) <==> Last(frames) < Last(starts) && frames[0] < starts[0]
    ensures r.Err? ==> r == Err(EndBeyondLastGop) || r == Err(NoGopForFrame(frames[0]))
    ensures r.Ok? ==>
              var (lens, firsts) := r.value;
              |firsts| == |firstIdsIn| + |lens| && firsts[..|firstIdsIn|] == firstIdsIn &&
              CoversFrames(starts, frames, lens, firsts[|firstIdsIn|..])
  {
    if Last(frames) >= Last(starts) {
      return Err(EndBeyondLastGop);
    }
    var gops := EmitGops(starts, frames);
    match gops {
      case None =>
        r := Err(NoGopForFrame(frames[0]));
      case Some((lens, emitted)) =>
        var firsts := firstIdsIn + emitted;
        assert firsts[..|firstIdsIn|] == firstIdsIn;
        assert firsts[|firstIdsIn|..] == emitted;
        r := Ok((lens, firsts));
    }
  }

  /** The GOPs of a strictly increasing start list partition the frames
      between the first start and the sentinel: each such frame lies in
      exactly one [starts[k-1], starts[k]). */
  lemma {:induction false} GopsPartitionFrames(starts: seq<int>, f: int)
    requires |starts| >= 2 && StrictlyIncreasing(starts)
    requires starts[0] <= f < Last(starts)
    ensures exists k :: 1 <= k < |starts| && starts[k - 1] <= f < starts[k]
    ensures forall k, k' ::
              (1 <= k < |starts| && 1 <= k' < |starts| &&
               starts[k - 1] <= f < starts[k] && starts[k' - 1] <= f < starts[k']) ==> k == k'
  {
    assert Sorted(starts);
    var k := UpperBound(starts, f);
    assert 1 <= k < |starts|;
    assert starts[k - 1] <= f < starts[k];
    forall k' | 1 <= k' < |starts| && starts[k' - 1] <= f < starts[k']
      ensures k' == k
    {
    }
  }

  /* ---------- hasDuplicates ---------- */

  /** hasDuplicates: true exactly when some value occurs twice. */
  method HasDuplicates(v: seq<int>) returns (dup: bool)
    ensures dup <==> exists i, j :: 0 <= i < j < |v| && v[i] == v[j]
  {
    var seen: set<int> := {};
    var k := 0;
    while k < |v|
      invariant 0 <= k <= |v|
      invariant seen == set i | 0 <= i < k :: v[i]
      invariant forall i, j :: 0 <= i < j < k ==> v[i] != v[j]
    {
      if v[k] in seen {
        var i :| 0 <= i < k && v[i] == v[k];
        return true;
      }
      seen := seen + {v[k]};
      k := k + 1;
    }
    return false;
  }
}
