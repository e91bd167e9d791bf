/** PyNvGopDemuxer: key-frame lookup over the GOP index, per-packet frame-id
    and reference resolution, and the two seek loops. The FFmpeg demuxer it
    wraps is not part of this model; it enters as a record of functions. */
module GopDemuxer {
  import opened Common
  import opened Nal
  import opened GopIndex

  /** What one SeekWithTS call reports: success, the packet it lands on (None
      for a null buffer) and that packet's timestamp. */
  datatype SeekReply = SeekReply(ok: bool, packet: Option<seq<Byte>>, tsOut: int)

  /** The demuxer state the seek code reads: the FFmpeg oracles
      (TsFromFrameNumber, FrameNumFromTs, SeekWithTS, IsVFRV2,
      GetVideoCodec) and the frame/timestamp maps installed by
      set_pts_frameid_mapping. SeekWithTS is taken to answer the same way for
      the same timestamp. */
  datatype Demuxer = Demuxer(
    codec: Codec,
    isVfr: bool,
    tsFromFrame: int -> int,
    frameFromTs: int -> int,
    seekWithTs: int -> SeekReply,
    frame2pts: map<int, int>,
    pts2frame: map<int, int>)

  /** std::invalid_argument of getNextKeyFrameId. */
  datatype KeyLookupError = NoKeyFrameBefore(frame: int)

  /* ---------- Key-frame lookup ---------- */

  /** getNextKeyFrameId: the first key frame after frame, or the last key
      frame when none follows; a frame before the first key frame has no GOP. */
  function GetNextKeyFrameId(keys: seq<int>, frame: int): (r: Result<int, KeyLookupError>)
    requires |keys| > 0 && Sorted(keys)
    ensures r.Err? <==> frame < keys[0]
    ensures r.Err? ==> r.error == NoKeyFrameBefore(frame)
    ensures r.Ok? ==> r.value in keys
    ensures r.Ok? && frame < Last(keys) ==>
              frame < r.value && forall k :: k in keys && frame < k ==> r.value <= k
    ensures r.Ok? && frame >= Last(keys) ==> r.value == Last(keys)
  {
    var i := UpperBound(keys, frame);
    if i == 0 then Err(NoKeyFrameBefore(frame))
    else if i == |keys| then Ok(Last(keys))
    else
      assert forall k :: k in keys && frame < k ==> keys[i] <= k by {
        forall k | k in keys && frame < k ensures keys[i] <= k {
          var j :| 0 <= j < |keys| && keys[j] == k;
          assert i <= j;
        }
      }
      Ok(keys[i])
  }

  /** getKeyFrameId: the greatest key frame at or before frame. The source
      dereferences outside the key list for frames beyond either end. */
  function GetKeyFrameId(keys: seq<int>, frame: int): (r: int)
    requires |keys| > 0 && Sorted(keys)
    requires keys[0] <= frame <= Last(keys)
    ensures r in keys && r <= frame
    ensures forall k :: k in keys && k <= frame ==> k <= r
  {
    var i := LowerBound(keys, frame);
    if keys[i] == frame then keys[i]
    else
      assert forall k :: k in keys && k <= frame ==> k <= keys[i - 1] by {
        forall k | k in keys && k <= frame ensures k <= keys[i - 1] {
          var j :| 0 <= j < |keys| && keys[j] == k;
          assert j < i;
        }
      }
      keys[i - 1]
  }

  /** Between the first and the last key frame, the two lookups bracket the
      frame by consecutive keys: its GOP runs from the one to the other. */
  lemma {:induction false} LookupsBracketFrame(keys: seq<int>, frame: int)
    requires |keys| > 0 && StrictlyIncreasing(keys)
    requires keys[0] <= frame < Last(keys)
    ensures GetNextKeyFrameId(keys, frame).Ok?
    ensures var lo, hi := GetKeyFrameId(keys, frame), GetNextKeyFrameId(keys, frame).value;
            lo <= frame < hi && forall k :: k in keys ==> k <= lo || hi <= k
  {
    var lo, hi := GetKeyFrameId(keys, frame), GetNextKeyFrameId(keys, frame).value;
    forall k | k in keys ensures k <= lo || hi <= k {
      if k <= frame {
        assert k <= lo;
      } else {
        assert hi <= k;
      }
    }
  }

  /** The lookups on the key list [0, 30, 60, 90]. */
  lemma KeyLookupExamples()
    ensures GetKeyFrameId([0, 30, 60, 90], 45) == 30
    ensures GetNextKeyFrameId([0, 30, 60, 90], 45) == Ok(60)
    ensures GetKeyFrameId([0, 30, 60, 90], 90) == 90
    ensures GetNextKeyFrameId([0, 30, 60, 90], 90) == Ok(90)
    ensures GetNextKeyFrameId([0, 30, 60, 90], -1) == Err(NoKeyFrameBefore(-1))
  {
    var keys := [0, 30, 60, 90];
    assert Sorted(keys);
    assert GetKeyFrameId(keys, 45) in keys;
    assert GetNextKeyFrameId(keys, 45).value in keys;
  }

  /* ---------- Demux ---------- */

  /** A non-reference H.264 slice: nal_ref_idc and the forbidden bit are zero
      (the source tests `b >> 5 == 0`) and the unit is a non-IDR slice. */
  predicate NonReferenceSlice(b: Byte): (r: bool)
    ensures r <==> H264RefBits(b) == 0 && H264TypeBits(b) == H264_NAL_SLICE
  {
    var h := ParseH264Header(b);
    h.forbiddenZeroBit == 0 && h.nalRefIdc == 0 && h.nalUnitType == H264_NAL_SLICE
  }

  /** The packet flags mark it disposable: bit 4 is set. */
  predicate Disposable(flags: bv32): (r: bool)
    ensures r <==> (flags >> 4) & 1 == 1
  {
    flags & AV_PKT_FLAG_DISPOSABLE != 0
  }

  /** The frame id of a packet timestamp: pts2frame for variable frame rate
      (None when it is missing), FrameNumFromTs otherwise. */
  function FrameOfTs(d: Demuxer, ts: int): (r: Option<int>)
    ensures d.isVfr ==> (r.Some? <==> ts in d.pts2frame)
    ensures r.Some? ==> r.value == if d.isVfr then d.pts2frame[ts] else d.frameFromTs(ts)
  {
    if d.isVfr then (if ts in d.pts2frame then Some(d.pts2frame[ts]) else None)
    else Some(d.frameFromTs(ts))
  }

  /** The timestamp of a frame id: frame2pts for variable frame rate (None
      when it is missing), TsFromFrameNumber otherwise. */
  function TsOfFrame(d: Demuxer, frame: int): (r: Option<int>)
    ensures d.isVfr ==> (r.Some? <==> frame in d.frame2pts)
    ensures r.Some? ==> r.value == if d.isVfr then d.frame2pts[frame] else d.tsFromFrame(frame)
  {
    if d.isVfr then (if frame in d.frame2pts then Some(d.frame2pts[frame]) else None)
    else Some(d.tsFromFrame(frame))
  }

  /** The packet Demux reads the H.264 header of exists far enough. */
  predicate RefHeaderReadable(d: Demuxer, pkt: DemuxedPacket, wantRef: bool) {
    wantRef && |pkt.data| > 0 && d.codec == H264 ==> StartCodeReadable(pkt.data)
  }

  /** Demux: the frame id of the next packet and, when the caller asks for it
      (a non-null pbRef), whether the packet is a reference picture. None
      when the demuxer fails or a variable-frame-rate timestamp is unmapped. */
  function Demux(d: Demuxer, pkt: DemuxedPacket, wantRef: bool): (r: Option<(int, Option<bool>)>)
    requires RefHeaderReadable(d, pkt, wantRef)
    ensures r.None? <==> !pkt.ok || FrameOfTs(d, pkt.timestamp).None?
    ensures r.Some? ==> r.value.0 == FrameOfTs(d, pkt.timestamp).value
    ensures r.Some? ==> (r.value.1.Some? <==> wantRef)
    ensures r.Some? && wantRef ==>
              (r.value.1 == Some(false) <==>
                 Disposable(pkt.flags) ||
                 (|pkt.data| > 0 && d.codec == H264 && NonReferenceSlice(NalHeaderByte(pkt.data))))
  {
    if !pkt.ok then None
    else
      match FrameOfTs(d, pkt.timestamp)
      case None => None
      case Some(frame) =>
        if !wantRef then Some((frame, None))
        else
          var isRef := pkt.flags & AV_PKT_FLAG_DISPOSABLE == 0;
          var isRef' :=
            if |pkt.data| > 0 && d.codec == H264 then
              var b := NalHeaderByte(pkt.data);
              if H264RefBits(b) == 0 && H264TypeBits(b) == 1 then false else isRef
            else isRef;
          Some((frame, Some(isRef')))
  }

  /** A packet Demux marks as a non-reference slice is never one the key-frame
      classifier accepts. */
  lemma NonReferenceSliceIsNotKey(p: seq<Byte>)
    requires StartCodeReadable(p)
    requires NonReferenceSlice(NalHeaderByte(p))
    ensures HasKeyFrameNalType(H264, Some(p)) == Ok(false)
  {
  }

  /** With the maps parse_gop_start_idx builds from distinct timestamps,
      Demux gives the packet with the i-th smallest timestamp the frame id i. */
  lemma DemuxFrameIdIsSortedOrdinal(d: Demuxer, sorted: seq<TsKey>, i: int, pkt: DemuxedPacket)
    requires d.isVfr && pkt.ok && 0 <= i < |sorted| && pkt.timestamp == sorted[i].0
    requires forall a, b :: 0 <= a < b < |sorted| ==> sorted[a].0 != sorted[b].0
    requires Frame2PtsWritten(sorted, |sorted|, map[], d.frame2pts)
    requires Pts2FrameWritten(sorted, |sorted|, map[], d.pts2frame)
    ensures Demux(d, pkt, false) == Some((i, None))
  {
    DistinctTimestampsGiveInverseMaps(sorted, d.frame2pts, d.pts2frame);
    assert d.frame2pts[i] == sorted[i].0;
  }

  /* ---------- Seek ---------- */

  /** Why a seek gave up. */
  datatype SeekFailure =
    | NoTimestampFor(frame: int)      // frame2pts lacks the frame (variable frame rate)
    | SeekCallFailed(frame: int)      // SeekWithTS returned false
    | NoFrameForTimestamp(ts: int)    // pts2frame lacks the output timestamp
    | NullPacket(frame: int)          // the buffer after the seek is null
    | BeforeFirstFrame                // the search point went below frame 0

  /** The result of a seek loop run with a bounded number of retries. */
  datatype SeekOutcome =
    | Landed(frameOut: int, seekFrame: int, reply: SeekReply)
    | Failed(why: SeekFailure)
    | OutOfFuel

  /** The loop of Seek from frame f on: seek to f's timestamp and stop when
      the output timestamp is the key frame's, else retry at f + 1. */
  function SeekLoop(d: Demuxer, f: int, tsKey: int, fuel: nat): (r: SeekOutcome)
    ensures r.Landed? ==>
              f <= r.seekFrame && TsOfFrame(d, r.seekFrame).Some? &&
              r.reply == d.seekWithTs(TsOfFrame(d, r.seekFrame).value) &&
              r.reply.ok && r.reply.tsOut == tsKey
    ensures r.Landed? ==>
              forall g :: f <= g < r.seekFrame ==>
                TsOfFrame(d, g).Some? && d.seekWithTs(TsOfFrame(d, g).value).ok &&
                d.seekWithTs(TsOfFrame(d, g).value).tsOut != tsKey
    ensures r.Failed? ==>
              (r.why.NoTimestampFor? && d.isVfr && r.why.frame !in d.frame2pts && f <= r.why.frame) ||
              (r.why.SeekCallFailed? && f <= r.why.frame && TsOfFrame(d, r.why.frame).Some? &&
               !d.seekWithTs(TsOfFrame(d, r.why.frame).value).ok)
    decreases fuel
  {
    match TsOfFrame(d, f)
    case None => Failed(NoTimestampFor(f))
    case Some(ts) =>
      var reply := d.seekWithTs(ts);
      if !reply.ok then Failed(SeekCallFailed(f))
      else if reply.tsOut == tsKey then Landed(0, f, reply)
      else if fuel == 0 then OutOfFuel
      else SeekLoop(d, f + 1, tsKey, fuel - 1)
  }

  /** Seek: land on the packet whose timestamp is that of frame target, and
      report the frame id of the landing timestamp. */
  function Seek(d: Demuxer, target: int, fuel: nat): (r: SeekOutcome)
    ensures r.Landed? ==>
              TsOfFrame(d, target).Some? && r.reply.tsOut == TsOfFrame(d, target).value &&
              target <= r.seekFrame && TsOfFrame(d, r.seekFrame).Some? &&
              r.reply == d.seekWithTs(TsOfFrame(d, r.seekFrame).value) &&
              FrameOfTs(d, r.reply.tsOut) == Some(r.frameOut)
    ensures r.Failed? ==>
              r.why.NoTimestampFor? || r.why.SeekCallFailed? ||
              (r.why.NoFrameForTimestamp? && d.isVfr && r.why.ts !in d.pts2frame && TsOfFrame(d, target).Some? &&
               r.why.ts == TsOfFrame(d, target).value)
    ensures TsOfFrame(d, target).None? ==> r == Failed(NoTimestampFor(target))
  {
    match TsOfFrame(d, target)
    case None => Failed(NoTimestampFor(target))
    case Some(tsKey) =>
      match SeekLoop(d, target, tsKey, fuel)
      case Landed(_, at, reply) =>
        (match FrameOfTs(d, reply.tsOut)
         case None => Failed(NoFrameForTimestamp(reply.tsOut))
         case Some(frame) => Landed(frame, at, reply))
      case other => other
  }

  /** When the frame/timestamp conversions round-trip, a successful seek
      reports the requested frame. */
  lemma SeekLandsOnTarget(d: Demuxer, target: int, fuel: nat)
    requires Seek(d, target, fuel).Landed?
    requires !d.isVfr ==> d.frameFromTs(d.tsFromFrame(target)) == target
    requires d.isVfr ==> target in d.frame2pts && d.frame2pts[target] in d.pts2frame &&
                         d.pts2frame[d.frame2pts[target]] == target
    ensures Seek(d, target, fuel).frameOut == target
  {
  }

  /* ---------- SeekGopFirstFrameNoMap ---------- */

  /** std::domain_error raised by SeekGopFirstFrameNoMap. */
  datatype GopSeekError = VfrNotSupported | Codec(e: CodecError)

  /** Every packet SeekWithTS can return is long enough for the classifier. */
  ghost predicate PacketsReadable(d: Demuxer) {
    forall ts :: d.seekWithTs(ts).packet.Some? ==> Readable(d.codec, d.seekWithTs(ts).packet.value)
  }

  /** The `int` the source stores TsFromFrameNumber's 64-bit result in:
      two's-complement narrowing to 32 bits. */
  function Int32Of(x: int): (r: int)
    ensures -0x8000_0000 <= r < 0x8000_0000
    ensures (x - r) % 0x1_0000_0000 == 0
    ensures -0x8000_0000 <= x < 0x8000_0000 ==> r == x
  {
    var m := x % 0x1_0000_0000;
    if m >= 0x8000_0000 then m - 0x1_0000_0000 else m
  }

  /** The timestamp SeekGopFirstFrameNoMap seeks to for frame f. */
  function GopSeekTs(d: Demuxer, f: int): int {
    Int32Of(d.tsFromFrame(f))
  }

  /** The loop of SeekGopFirstFrameNoMap, searching from frame cur for the
      key frame that starts target's GOP. A key frame past the target moves
      the search one frame back; a non-key packet moves it to the frame
      before the one landed on. */
  function GopSeekLoop(d: Demuxer, target: int, cur: int, fuel: nat): (r: Result<SeekOutcome, GopSeekError>)
    requires PacketsReadable(d)
    ensures r.Ok? && r.value.Landed? ==>
              var reply := r.value.reply;
              0 <= r.value.seekFrame && reply == d.seekWithTs(GopSeekTs(d, r.value.seekFrame)) &&
              reply.ok && reply.packet.Some? &&
              HasKeyFrameNalType(d.codec, reply.packet) == Ok(true) &&
              r.value.frameOut == d.frameFromTs(reply.tsOut) && r.value.frameOut <= target
    ensures r.Ok? && r.value.Failed? ==>
              r.value.why.SeekCallFailed? || r.value.why.NullPacket? || r.value.why.BeforeFirstFrame?
    ensures r.Ok? && r.value.Failed? && r.value.why.SeekCallFailed? ==>
              var f := r.value.why.frame;
              0 <= f && !d.seekWithTs(GopSeekTs(d, f)).ok
    ensures r.Ok? && r.value.Failed? && r.value.why.NullPacket? ==>
              var f := r.value.why.frame;
              0 <= f && d.seekWithTs(GopSeekTs(d, f)).ok && d.seekWithTs(GopSeekTs(d, f)).packet.None?
    ensures r.Err? ==> d.codec.OtherCodec? && r.error == Codec(UnsupportedCodec(d.codec.id))
    ensures cur < 0 ==> r == Ok(Failed(BeforeFirstFrame))
    decreases fuel
  {
    if cur < 0 then Ok(Failed(BeforeFirstFrame))
    else
      var reply := d.seekWithTs(GopSeekTs(d, cur));
      if !reply.ok then Ok(Failed(SeekCallFailed(cur)))
      else
        var frameOut := d.frameFromTs(reply.tsOut);
        if reply.packet.None? then Ok(Failed(NullPacket(cur)))
        else
          match HasKeyFrameNalType(d.codec, reply.packet)
          case Err(e) => Err(Codec(e))
          case Ok(isKey) =>
            if isKey && frameOut <= target then Ok(Landed(frameOut, cur, reply))
            else
              var next := if isKey then cur - 1 else frameOut - 1;
              if next < 0 then Ok(Failed(BeforeFirstFrame))
              else if fuel == 0 then Ok(OutOfFuel)
              else GopSeekLoop(d, target, next, fuel - 1)
  }

  /** One step of the search from frame cur: a failed seek or a null packet
      ends it there; a key frame past the target retries one frame back; a
      non-key packet retries at the frame before the one landed on. A retry
      below frame 0 fails, and one with no fuel left gives up. */
  lemma GopSeekStep(d: Demuxer, target: int, cur: int, fuel: nat)
    requires PacketsReadable(d) && 0 <= cur
    ensures var reply := d.seekWithTs(GopSeekTs(d, cur));
            var frameOut := d.frameFromTs(reply.tsOut);
            var r := GopSeekLoop(d, target, cur, fuel);
            (!reply.ok ==> r == Ok(Failed(SeekCallFailed(cur)))) &&
            (reply.ok && reply.packet.None? ==> r == Ok(Failed(NullPacket(cur)))) &&
            (reply.ok && reply.packet.Some? && HasKeyFrameNalType(d.codec, reply.packet) == Ok(true) ==>
               if frameOut <= target then r == Ok(Landed(frameOut, cur, reply))
               else r == GopSeekRetry(d, target, cur - 1, fuel)) &&
            (reply.ok && reply.packet.Some? && HasKeyFrameNalType(d.codec, reply.packet) == Ok(false) ==>
               r == GopSeekRetry(d, target, frameOut - 1, fuel))
  {
  }

  /** The outcome of retrying the search at frame next with fuel left. */
  function GopSeekRetry(d: Demuxer, target: int, next: int, fuel: nat): (r: Result<SeekOutcome, GopSeekError>)
    requires PacketsReadable(d)
  {
    if next < 0 then Ok(Failed(BeforeFirstFrame))
    else if fuel == 0 then Ok(OutOfFuel)
    else GopSeekLoop(d, target, next, fuel - 1)
  }

  /** SeekGopFirstFrameNoMap: the first frame of the GOP holding target, for
      constant frame rate streams only. */
  function SeekGopFirstFrame(d: Demuxer, target: int, fuel: nat): (r: Result<SeekOutcome, GopSeekError>)
    requires PacketsReadable(d)
    ensures d.isVfr <==> r == Err(VfrNotSupported)
    ensures !d.isVfr ==> r == GopSeekLoop(d, target, target, fuel)
  {
    if d.isVfr then Err(VfrNotSupported) else GopSeekLoop(d, target, target, fuel)
  }

  /** A three-byte start code followed by an H.264 header byte. */
  function AnnexB(b: Byte): seq<Byte> {
    [0, 0, 1, b]
  }

  /** A four-byte start code followed by an H.264 header byte. */
  function AnnexB4(b: Byte): seq<Byte> {
    [0, 0, 0, 1, b]
  }

  /** The source's choice between index 3 and index 4 finds the header byte
      after either start code. */
  lemma AnnexBHeaderByte(b: Byte)
    ensures StartCodeReadable(AnnexB(b)) && NalHeaderByte(AnnexB(b)) == b
    ensures StartCodeReadable(AnnexB4(b)) && NalHeaderByte(AnnexB4(b)) == b
  {
  }

  /** An H.264 stream whose every seek returns a three- or four-byte start
      code and a header. */
  lemma AnnexBReadable(d: Demuxer)
    requires d.codec == H264
    requires forall ts :: d.seekWithTs(ts).packet.Some? ==>
               exists b :: d.seekWithTs(ts).packet.value == AnnexB(b) || d.seekWithTs(ts).packet.value == AnnexB4(b)
    ensures PacketsReadable(d)
  {
    forall ts | d.seekWithTs(ts).packet.Some?
      ensures Readable(d.codec, d.seekWithTs(ts).packet.value)
    {
      var b :| d.seekWithTs(ts).packet.value == AnnexB(b) || d.seekWithTs(ts).packet.value == AnnexB4(b);
      AnnexBHeaderByte(b);
    }
  }

  /** The stream of the comment at PyNvGopDemuxer.cpp:306-312, GOPs [0, 29],
      [30, 59], [60, 89], where FFmpeg answers a seek to frame 30 with the
      SPS packet of frame 29. The search accepts frame 29 as the start of the
      GOP of frame 30: the GOP boundary comes out one frame early. */
  function OffByOneStream(): Demuxer {
    Demuxer(H264, false, f => f, ts => ts,
            ts => if ts == 30 then SeekReply(true, Some(AnnexB(0x67)), 29)
                  else SeekReply(true, Some(AnnexB(0x41)), ts),
            map[], map[])
  }

  lemma OffByOneGopStart()
    ensures PacketsReadable(OffByOneStream())
    ensures SeekGopFirstFrame(OffByOneStream(), 30, 0) == Ok(Landed(29, 30, SeekReply(true, Some(AnnexB(0x67)), 29)))
  {
    var d := OffByOneStream();
    AnnexBReadable(d);
    assert NalHeaderByte(AnnexB(0x67)) == 0x67;
    assert H264TypeBits(0x67) == 7;
  }

  /** B-frame reordering as in the comment at PyNvGopDemuxer.cpp:294, with
      key frames 0 and 250: a seek to frame 249 lands on the key frame 250,
      past the target, so the search retries at 248 and lands on frame 0. */
  function ReorderedStream(): Demuxer {
    Demuxer(H264, false, f => f, ts => ts,
            ts => if ts >= 249 then SeekReply(true, Some(AnnexB(0x67)), 250)
                  else SeekReply(true, Some(AnnexB(0x67)), 0),
            map[], map[])
  }

  lemma OvershootRetriesOneBack()
    ensures PacketsReadable(ReorderedStream())
    ensures SeekGopFirstFrame(ReorderedStream(), 249, 1) == Ok(Landed(0, 248, SeekReply(true, Some(AnnexB(0x67)), 0)))
    ensures SeekGopFirstFrame(ReorderedStream(), 249, 0) == Ok(OutOfFuel)
  {
    AnnexBReadable(ReorderedStream());
    assert NalHeaderByte(AnnexB(0x67)) == 0x67;
    assert H264TypeBits(0x67) == 7;
  }
}
