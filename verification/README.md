# On-demand video decoder: GOP index, seek and cache logic in Dafny

This project models the part of the ACCV-Lab on-demand video decoder that can
be reasoned about without a GPU or FFmpeg:

- the key-frame classifiers (`iskeyFrame`, `hasKeyFrameNalType`), which read
  one header byte of a compressed packet. For H.264 this is the NAL unit
  header of section 7.3.1 of ITU-T H.264. For HEVC it is the NAL unit header
  of section 7.3.1.2 of ITU-T H.265. For AV1 it is the OBU header of
  section 5.3.2 of the AV1 Bitstream Specification;
- the GOP index built from a demuxed stream (`parse_gop_start_idx`) and the
  grouping of requested frames into GOP ranges (`parse_gop_length`);
- the `LFUCache` used to keep readers, and `hasDuplicates`;
- the key-frame lookups and the two seek loops of `PyNvGopDemuxer`, with the
  FFmpeg demuxer as an oracle;
- the sample reader's request key, request validation, the admission guard of
  `run` / `run_rgb_out`, and the one-slot asynchronous result protocol;
- the Python GOP cache wrapper `CachedGopDecoder`;
- the fail-fast `drop_videos_cache` fold;
- the two string transforms of the documentation sync script.

One module per source component:

| file | module | source component |
|---|---|---|
| common.dfy | Common | Option/Result, sortedness |
| nal.dfy | Nal | header layouts and key-frame classifiers |
| gop_index.dfy | GopIndex | `parse_gop_start_idx`, `parse_gop_length`, `hasDuplicates` |
| lfu_cache.dfy | LfuCache | `LFUCache` |
| gop_demuxer.dfy | GopDemuxer | key-frame lookups, `Demux`, `Seek`, `SeekGopFirstFrameNoMap` |
| sample_reader.dfy | SampleReader | request key, `validate_request`, reader admission |
| async_result.dfy | AsyncResult | `DecodeN12ToRGBAsync` / `GetBuffer` slot protocol |
| gop_cache.dfy | GopCache | `CachedGopDecoder` |
| drop_cache.dfy | DropCache | `drop_videos_cache` |
| readme_sync.dfy | ReadmeSync | `transform_links`, `add_quick_start_label` |

External code is modelled as oracles. The FFmpeg demuxer is a record of
function-valued fields: `TsFromFrameNumber`, `FrameNumFromTs`, `SeekWithTS`,
`IsVFRV2` and the codec id. The native `GetGOP`/`GetGOPList`/merge calls, the
decode worker and the per-file system calls are oracles too. Exceptions become
`Err` values of small error datatypes.

Source behaviour worth noting:

- `validate_request` compares frame ids only up to the number of paths, once
  the two list lengths agree. `SampleReader.TrailingIdsNotCompared` shows this.
- `SeekGopFirstFrameNoMap` keeps the off-by-one GOP behaviour its own comment
  describes. A stream whose frame 30 seeks back to key frame 29 lands on 29
  (`GopDemuxer.OffByOneGopStart`).
- The timestamp passed to `SeekWithTS` in `SeekGopFirstFrameNoMap` is
  narrowed to a 32-bit `int` in the source. The model narrows it explicitly
  (`GopDemuxer.Int32Of`).

## Model

| member | source | states |
|---|---|---|
| Nal.ParseH264Header | packages/on_demand_video_decoder/ext_impl/src/PyNvOnDemandDecoder/inc/GopDecoderUtils.hpp:327-329 | splitting a byte into forbidden_zero_bit, nal_ref_idc and nal_unit_type gives fields within their bit widths |
| Nal.H264HeaderRoundTrip | packages/on_demand_video_decoder/ext_impl/src/PyNvOnDemandDecoder/inc/GopDecoderUtils.hpp:327-329 | packing a well-formed H.264 NAL header into a byte and splitting it again gives back the same three fields |
| Nal.HevcHeaderRoundTrip | packages/on_demand_video_decoder/ext_impl/src/PyNvOnDemandDecoder/inc/GopDecoderUtils.hpp:318-319 | the same round trip for the first byte of the HEVC NAL header (forbidden bit, nal_unit_type, high bit of nuh_layer_id) |
| Nal.ObuHeaderRoundTrip | packages/on_demand_video_decoder/ext_impl/src/PyNvOnDemandDecoder/inc/GopDecoderUtils.hpp:338-339 | the same round trip for the AV1 OBU header byte (forbidden bit, obu_type, extension flag, has_size_field, reserved bit) |
| Nal.H264TypeBits | packages/on_demand_video_decoder/ext_impl/src/PyNvOnDemandDecoder/inc/GopDecoderUtils.hpp:371-372 | `b & 0x1f` is exactly the standard's nal_unit_type field of the byte |
| Nal.H264RefBits | packages/on_demand_video_decoder/ext_impl/src/PyNvOnDemandDecoder/inc/GopDecoderUtils.hpp:328 | `b >> 5` is nal_ref_idc with the forbidden bit above it, so it is zero exactly when both are zero |
| Nal.HevcTypeBits | packages/on_demand_video_decoder/ext_impl/src/PyNvOnDemandDecoder/inc/GopDecoderUtils.hpp:364-365 | `b >> 1` is nal_unit_type with the forbidden bit above it, so a stream with the forbidden bit set never matches a parameter-set type |
| Nal.Av1TypeBits | packages/on_demand_video_decoder/ext_impl/src/PyNvOnDemandDecoder/inc/GopDecoderUtils.hpp:378-379 | `(b >> 3) & 0x0F` is exactly the standard's obu_type field |
| Nal.NalHeaderByte | packages/on_demand_video_decoder/ext_impl/src/PyNvOnDemandDecoder/inc/GopDecoderUtils.hpp:364 | the header byte follows a 3-byte start code (index 3) when byte 2 is 1, otherwise a 4-byte one (index 4) |
| Nal.H264MaskAgrees | packages/on_demand_video_decoder/ext_impl/src/PyNvOnDemandDecoder/inc/GopDecoderUtils.hpp:372-375 | the source's test on `b & 0x1f` holds iff the header's nal_unit_type is SEI, SPS, PPS or AUD (6, 7, 8, 9) |
| Nal.HevcMaskAgrees | packages/on_demand_video_decoder/ext_impl/src/PyNvOnDemandDecoder/inc/GopDecoderUtils.hpp:365-369 | the source's test on `b >> 1` holds iff the header has a clear forbidden bit and type VPS, SPS, PPS, prefix SEI or suffix SEI (32, 33, 34, 39, 40) |
| Nal.HasKeyFrameNalType | packages/on_demand_video_decoder/ext_impl/src/PyNvOnDemandDecoder/inc/GopDecoderUtils.hpp:358-384 | a null packet gives false before the codec is looked at; an unknown codec is an error; otherwise the answer is the standard-level "opens a GOP" predicate of the codec's header |
| Nal.IsKeyFrame | packages/on_demand_video_decoder/ext_impl/src/PyNvOnDemandDecoder/inc/GopDecoderUtils.hpp:311-349 | errors exactly as `hasKeyFrameNalType` does; otherwise true iff AV_PKT_FLAG_KEY is set and the structural check holds |
| GopIndex.UpperBound | packages/on_demand_video_decoder/ext_impl/src/PyNvOnDemandDecoder/inc/GopDecoderUtils.hpp:472-473 | on a sorted list, the result splits it into elements `<= x` before and `> x` from it on (std::upper_bound) |
| GopIndex.LowerBound | packages/on_demand_video_decoder/ext_impl/src/PyNvOnDemandDecoder/inc/GopDecoderUtils.hpp:481 | on a sorted list, the result splits it into elements `< x` before and `>= x` from it on (std::lower_bound) |
| GopIndex.CollectPairs | packages/on_demand_video_decoder/ext_impl/src/PyNvOnDemandDecoder/inc/GopDecoderUtils.hpp:411-425 | the demux loop keeps one (timestamp, is-key) pair per packet up to the first empty one; a failed non-empty demux or an unknown codec is an error |
| GopIndex.InsertByTs | packages/on_demand_video_decoder/ext_impl/src/PyNvOnDemandDecoder/inc/GopDecoderUtils.hpp:428-429 | inserting into a timestamp-sorted list keeps it sorted and adds exactly one element |
| GopIndex.SortByTimestamp | packages/on_demand_video_decoder/ext_impl/src/PyNvOnDemandDecoder/inc/GopDecoderUtils.hpp:428-429 | the result is sorted by timestamp and is a permutation of the input |
| GopIndex.KeyOrdinalsStep | packages/on_demand_video_decoder/ext_impl/src/PyNvOnDemandDecoder/inc/GopDecoderUtils.hpp:441-443 | one loop step keeps "starts lists the sorted indices of the key pairs seen so far" |
| GopIndex.GopStartsOfSorted | packages/on_demand_video_decoder/ext_impl/src/PyNvOnDemandDecoder/inc/GopDecoderUtils.hpp:431-445 | the start list is strictly increasing, ends with the sentinel equal to the pair count, and holds index i iff pair i is a key frame; under VFR the maps get the last write per index and timestamp, otherwise they are untouched |
| GopIndex.ParseGopStartIdx | packages/on_demand_video_decoder/ext_impl/src/PyNvOnDemandDecoder/inc/GopDecoderUtils.hpp:403-451 | fails iff the demux loop fails; otherwise the result is never empty (so the check at line 447 is dead), is strictly increasing, ends with the packet count and lists the key-frame ordinals in timestamp order |
| GopIndex.DistinctTimestampsGiveInverseMaps | packages/on_demand_video_decoder/ext_impl/src/PyNvOnDemandDecoder/inc/GopDecoderUtils.hpp:436-439 | with distinct timestamps, frame2pts and pts2frame are inverse to each other |
| GopIndex.EmitGops | packages/on_demand_video_decoder/ext_impl/src/PyNvOnDemandDecoder/inc/GopDecoderUtils.hpp:470-483 | the loop fails iff the first frame precedes the first GOP start; otherwise every frame lies in an emitted range, ranges are consecutive start pairs in ascending order, and each holds a requested frame |
| GopIndex.ParseGopLength | packages/on_demand_video_decoder/ext_impl/src/PyNvOnDemandDecoder/inc/GopDecoderUtils.hpp:461-484 | out_of_range iff the last frame is at or past the last start, or the first frame precedes the first start; on success the new first ids are appended after the caller's and the ranges cover the frames |
| GopIndex.GopsPartitionFrames | packages/on_demand_video_decoder/ext_impl/src/PyNvOnDemandDecoder/inc/GopDecoderUtils.hpp:470-483 | with strictly increasing starts, a frame inside the indexed span lies in exactly one GOP range |
| GopIndex.HasDuplicates | packages/on_demand_video_decoder/ext_impl/src/PyNvOnDemandDecoder/inc/GopDecoderUtils.hpp:130-139 | true iff two positions of the list hold the same value |
| LfuCache.Empty | packages/on_demand_video_decoder/ext_impl/src/PyNvOnDemandDecoder/inc/GopDecoderUtils.hpp:156-159 | a new cache is empty with minFreq 0 |
| LfuCache.EmptyValid | packages/on_demand_video_decoder/ext_impl/src/PyNvOnDemandDecoder/inc/GopDecoderUtils.hpp:156-159 | a new cache satisfies the cache invariant |
| LfuCache.RemoveKey | packages/on_demand_video_decoder/ext_impl/src/PyNvOnDemandDecoder/inc/GopDecoderUtils.hpp:169 | erasing a key from a frequency list removes exactly that key and keeps the list duplicate-free |
| LfuCache.Bump | packages/on_demand_video_decoder/ext_impl/src/PyNvOnDemandDecoder/inc/GopDecoderUtils.hpp:169-179 | moving a key up one count raises its count by one, keeps its value, every other key's entry, the capacity and minFreq |
| LfuCache.Touch | packages/on_demand_video_decoder/ext_impl/src/PyNvOnDemandDecoder/inc/GopDecoderUtils.hpp:169-183 | a use of a cached key raises its count by one and changes nothing else in the key map |
| LfuCache.TouchValid | packages/on_demand_video_decoder/ext_impl/src/PyNvOnDemandDecoder/inc/GopDecoderUtils.hpp:169-183 | a use preserves the invariant: lists hold exactly the keys of their count, no duplicates, no key below minFreq, and a full cache has a key queued at minFreq to evict |
| LfuCache.Get | packages/on_demand_video_decoder/ext_impl/src/PyNvOnDemandDecoder/inc/GopDecoderUtils.hpp:161-187 | a missing key returns null and changes nothing; a present key returns its value and raises its count by one |
| LfuCache.GetValid | packages/on_demand_video_decoder/ext_impl/src/PyNvOnDemandDecoder/inc/GopDecoderUtils.hpp:161-187 | `get` preserves the cache invariant |
| LfuCache.Put | packages/on_demand_video_decoder/ext_impl/src/PyNvOnDemandDecoder/inc/GopDecoderUtils.hpp:189-238 | capacity 0 is a no-op; an existing key gets the new value and one more use; a new key in a full cache evicts the front of the minFreq list and is not inserted; otherwise it is inserted with count 1 |
| LfuCache.PutValid | packages/on_demand_video_decoder/ext_impl/src/PyNvOnDemandDecoder/inc/GopDecoderUtils.hpp:189-238 | `put` preserves the cache invariant |
| LfuCache.EvictsLeastUsed | packages/on_demand_video_decoder/ext_impl/src/PyNvOnDemandDecoder/inc/GopDecoderUtils.hpp:220-227 | the victim of a full-cache put is a cached key whose count is minimal among all cached keys |
| LfuCache.Size | packages/on_demand_video_decoder/ext_impl/src/PyNvOnDemandDecoder/inc/GopDecoderUtils.hpp:240 | in a valid cache the size never exceeds the capacity |
| GopDemuxer.GetNextKeyFrameId | packages/on_demand_video_decoder/ext_impl/src/PyNvOnDemandDecoder/src/PyNvGopDemuxer.cpp:52-62 | invalid_argument iff the frame precedes the first key; otherwise the smallest key above the frame, or the last key when none is above it |
| GopDemuxer.GetKeyFrameId | packages/on_demand_video_decoder/ext_impl/src/PyNvOnDemandDecoder/src/PyNvGopDemuxer.cpp:64-71 | the greatest key not above the frame |
| GopDemuxer.LookupsBracketFrame | packages/on_demand_video_decoder/ext_impl/src/PyNvOnDemandDecoder/src/PyNvGopDemuxer.cpp:52-71 | inside the key span the two lookups bracket the frame with no key strictly between them |
| GopDemuxer.KeyLookupExamples | packages/on_demand_video_decoder/ext_impl/src/PyNvOnDemandDecoder/src/PyNvGopDemuxer.cpp:52-71 | worked lookups on keys 0, 30, 60, 90, including the last key and a frame before the first |
| GopDemuxer.FrameOfTs | packages/on_demand_video_decoder/ext_impl/src/PyNvOnDemandDecoder/src/PyNvGopDemuxer.cpp:100-116 | under VFR the frame comes from pts2frame and is missing iff the timestamp is absent; otherwise FrameNumFromTs |
| GopDemuxer.TsOfFrame | packages/on_demand_video_decoder/ext_impl/src/PyNvOnDemandDecoder/src/PyNvGopDemuxer.cpp:142-160 | under VFR the timestamp comes from frame2pts and is missing iff the frame is absent; otherwise TsFromFrameNumber |
| GopDemuxer.Demux | packages/on_demand_video_decoder/ext_impl/src/PyNvOnDemandDecoder/src/PyNvGopDemuxer.cpp:79-135 | false iff the demux fails or the timestamp has no frame; the reference flag is false iff DISPOSABLE is set or the packet is a non-empty H.264 non-reference slice |
| GopDemuxer.Disposable | packages/on_demand_video_decoder/ext_impl/src/PyNvOnDemandDecoder/src/PyNvGopDemuxer.cpp:118-123 | the AV_PKT_FLAG_DISPOSABLE test is a test of flag bit 4 |
| GopDemuxer.NonReferenceSlice | packages/on_demand_video_decoder/ext_impl/src/PyNvOnDemandDecoder/src/PyNvGopDemuxer.cpp:125-131 | the source's test (`b >> 5` zero and `b & 0x1f` equal to 1) holds iff the parsed header has forbidden bit and nal_ref_idc zero and is a non-IDR slice |
| GopDemuxer.NonReferenceSliceIsNotKey | packages/on_demand_video_decoder/ext_impl/src/PyNvOnDemandDecoder/src/PyNvGopDemuxer.cpp:125-131 | a packet the reference rule drops is never classified as opening a GOP |
| GopDemuxer.DemuxFrameIdIsSortedOrdinal | packages/on_demand_video_decoder/ext_impl/src/PyNvOnDemandDecoder/src/PyNvGopDemuxer.cpp:100-102 | with maps built by the GOP index from distinct timestamps, a VFR packet's frame id is its position in timestamp order |
| GopDemuxer.SeekLoop | packages/on_demand_video_decoder/ext_impl/src/PyNvOnDemandDecoder/src/PyNvGopDemuxer.cpp:162-200 | landing means the last seek's output timestamp is the key timestamp, and every earlier frame tried succeeded with a different output; failure names the frame with no timestamp or whose seek failed |
| GopDemuxer.Seek | packages/on_demand_video_decoder/ext_impl/src/PyNvOnDemandDecoder/src/PyNvGopDemuxer.cpp:139-247 | a frame without a timestamp fails at once; success outputs the requested frame's timestamp from a seek at or after it, and the output frame is that timestamp's frame; a VFR output timestamp missing from pts2frame fails |
| GopDemuxer.SeekLandsOnTarget | packages/on_demand_video_decoder/ext_impl/src/PyNvOnDemandDecoder/src/PyNvGopDemuxer.cpp:139-247 | when the timestamp maps are inverse to each other, a successful seek reports the requested frame |
| GopDemuxer.Int32Of | packages/on_demand_video_decoder/ext_impl/src/PyNvOnDemandDecoder/src/PyNvGopDemuxer.cpp:263 | the narrowing to `int` keeps the value modulo 2^32 in the signed 32-bit range and leaves in-range values alone |
| GopDemuxer.GopSeekLoop | packages/on_demand_video_decoder/ext_impl/src/PyNvOnDemandDecoder/src/PyNvGopDemuxer.cpp:258-317 | a search point below 0 fails; landing means the final packet opens a GOP and its frame is not past the target; failures are a failed seek, a null packet or running below frame 0, and a reported failed seek or null packet names a non-negative frame whose seek failed or returned no packet |
| GopDemuxer.GopSeekStep | packages/on_demand_video_decoder/ext_impl/src/PyNvOnDemandDecoder/src/PyNvGopDemuxer.cpp:261-303 | from a frame at or above 0: a failed seek or a null packet ends the search at that frame; a key frame at or before the target lands; a key frame past it retries one frame back; a non-key packet retries at the frame before the one landed on |
| GopDemuxer.SeekGopFirstFrame | packages/on_demand_video_decoder/ext_impl/src/PyNvOnDemandDecoder/src/PyNvGopDemuxer.cpp:250-318 | domain_error iff the stream is VFR; otherwise the backtracking loop from the target |
| GopDemuxer.AnnexBReadable | packages/on_demand_video_decoder/ext_impl/src/PyNvOnDemandDecoder/src/PyNvGopDemuxer.cpp:286-291 | an H.264 oracle whose packets are a 3-byte (`00 00 01`) or 4-byte (`00 00 00 01`) start code followed by the header byte always has a readable header byte |
| GopDemuxer.AnnexBHeaderByte | packages/on_demand_video_decoder/ext_impl/src/PyNvOnDemandDecoder/inc/GopDecoderUtils.hpp:371 | picking index 3 when byte 2 is 1 and index 4 otherwise reads the header byte after either start code |
| GopDemuxer.OffByOneGopStart | packages/on_demand_video_decoder/ext_impl/src/PyNvOnDemandDecoder/src/PyNvGopDemuxer.cpp:306-312 | the case the source comment describes: GOPs [0,29], [30,59] with a stream seeking 30 back to 29 lands on 29 |
| GopDemuxer.OvershootRetriesOneBack | packages/on_demand_video_decoder/ext_impl/src/PyNvOnDemandDecoder/src/PyNvGopDemuxer.cpp:293-298 | the reordered case the source comment sketches: a key frame past the target retries one frame back and then lands |
| SampleReader.MatchesRequest | packages/on_demand_video_decoder/ext_impl/src/PyNvOnDemandDecoder/src/PyNvSampleReader.cpp:658-675 | the acceptance condition of validate_request; ValidateRequest computes it and MatchesIsEquality relates it to request equality |
| SampleReader.ValidateRequest | packages/on_demand_video_decoder/ext_impl/src/PyNvOnDemandDecoder/src/PyNvSampleReader.cpp:658-675 | true iff both list lengths agree, as_bgr matches and every path and the id at its index match |
| SampleReader.MatchesIsEquality | packages/on_demand_video_decoder/ext_impl/src/PyNvOnDemandDecoder/src/PyNvSampleReader.cpp:658-675 | when as many ids as paths are given, validation is equality of the stored and given requests |
| SampleReader.TrailingIdsNotCompared | packages/on_demand_video_decoder/ext_impl/src/PyNvOnDemandDecoder/src/PyNvSampleReader.cpp:668-672 | ids past the number of paths are not compared |
| SampleReader.NatDigitsRoundTrip | packages/on_demand_video_decoder/ext_impl/src/PyNvOnDemandDecoder/src/PyNvSampleReader.cpp:650 | reading back the decimal digits the stream writes for a natural number gives the number |
| SampleReader.DecimalRoundTrip | packages/on_demand_video_decoder/ext_impl/src/PyNvOnDemandDecoder/src/PyNvSampleReader.cpp:650 | the same for any integer, sign included |
| SampleReader.KeyEntry | packages/on_demand_video_decoder/ext_impl/src/PyNvOnDemandDecoder/src/PyNvSampleReader.cpp:649 | an entry is the path, a colon, then the printed id (at least one character) |
| SampleReader.Join | packages/on_demand_video_decoder/ext_impl/src/PyNvOnDemandDecoder/src/PyNvSampleReader.cpp:648-653 | one entry is returned as it is; SplitJoin shows splitting undoes the join |
| SampleReader.KeyEntries | packages/on_demand_video_decoder/ext_impl/src/PyNvOnDemandDecoder/src/PyNvSampleReader.cpp:649-650 | one `path:id` entry per path, in order |
| SampleReader.GenerateRequestKey | packages/on_demand_video_decoder/ext_impl/src/PyNvOnDemandDecoder/src/PyNvSampleReader.cpp:645-656 | the key starts with `1:` or `0:` for as_bgr and continues with the entries separated by commas |
| SampleReader.SplitJoin | packages/on_demand_video_decoder/ext_impl/src/PyNvOnDemandDecoder/src/PyNvSampleReader.cpp:651-653 | entries free of the separator are recovered by splitting their comma-joined text |
| SampleReader.EntriesRoundTrip | packages/on_demand_video_decoder/ext_impl/src/PyNvOnDemandDecoder/src/PyNvSampleReader.cpp:649-650 | entries of paths free of `:` and `,` parse back to the paths and ids |
| SampleReader.RequestKeyRoundTrip | packages/on_demand_video_decoder/ext_impl/src/PyNvOnDemandDecoder/src/PyNvSampleReader.cpp:645-656 | for paths free of `:` and `,`, the key determines the request: parsing it gives the paths, ids and as_bgr back |
| SampleReader.RequestKeyAmbiguousWithSeparators | packages/on_demand_video_decoder/ext_impl/src/PyNvOnDemandDecoder/src/PyNvSampleReader.cpp:645-656 | with a `:` or `,` inside a path, two different requests get the same key |
| SampleReader.SizeOf | packages/on_demand_video_decoder/ext_impl/src/PyNvOnDemandDecoder/src/PyNvSampleReader.cpp:180 | a non-negative `int` compares with a `size_t` as itself, a negative one as a value of at least 2^63 |
| SampleReader.AdmitReaders | packages/on_demand_video_decoder/ext_impl/src/PyNvOnDemandDecoder/src/PyNvSampleReader.cpp:173-198 | invalid_argument iff the lengths differ, or iff they agree and the file count exceeds num_of_file; otherwise a reader is created at position i iff that map is not full and lacks the path |
| SampleReader.AdmittedRunFitsReaderTable | packages/on_demand_video_decoder/ext_impl/src/PyNvOnDemandDecoder/src/PyNvSampleReader.cpp:217-241 | an admitted run has equal lengths and no more files than reader maps, so every index is in range |
| SampleReader.NoReaderForCachedOrFull | packages/on_demand_video_decoder/ext_impl/src/PyNvOnDemandDecoder/src/PyNvSampleReader.cpp:234-241 | no reader is created for a path already cached or for a full map |
| AsyncResult.WorkerOutcome | packages/on_demand_video_decoder/ext_impl/src/PyNvOnDemandDecoder/src/PyNvSampleReader.cpp:709-747 | the worker's result is the length error of `run_rgb_out` when the lists differ in length, else what the decoder returns |
| AsyncResult.Finish | packages/on_demand_video_decoder/ext_impl/src/PyNvOnDemandDecoder/src/PyNvSampleReader.cpp:709-747 | completion pushes exactly one result, for the pending request, and clears pending; it blocks iff the slot is occupied |
| AsyncResult.WaitForPending | packages/on_demand_video_decoder/ext_impl/src/PyNvOnDemandDecoder/src/PyNvSampleReader.cpp:614-624 | without a pending task it returns at once; otherwise it lets the worker finish, after which nothing is pending |
| AsyncResult.ClearBuffer | packages/on_demand_video_decoder/ext_impl/src/PyNvOnDemandDecoder/src/PyNvSampleReader.cpp:750-756 | the slot ends empty and the pending task is left alone |
| AsyncResult.Submit | packages/on_demand_video_decoder/ext_impl/src/PyNvOnDemandDecoder/src/PyNvSampleReader.cpp:677-748 | as written: with a task pending it waits and empties the slot; without one the slot is kept; the new request becomes pending |
| AsyncResult.SubmitClearing | packages/on_demand_video_decoder/ext_impl/src/PyNvOnDemandDecoder/src/PyNvSampleReader.cpp:682-700 | corrected: the new request is pending and the slot is empty afterwards in both branches |
| AsyncResult.GetBuffer | packages/on_demand_video_decoder/ext_impl/src/PyNvOnDemandDecoder/src/PyNvSampleReader.cpp:758-796 | fails iff nothing is pending or stored; otherwise pops the slot first, rethrows a stored exception, reports a parameter mismatch, or returns the frames; the slot always ends empty |
| AsyncResult.ExceptionBeforeParameterCheck | packages/on_demand_video_decoder/ext_impl/src/PyNvOnDemandDecoder/src/PyNvSampleReader.cpp:781-784 | a stored exception is rethrown whatever parameters the retrieval passes |
| AsyncResult.DecodeRgbSync | packages/on_demand_video_decoder/ext_impl/src/PyNvOnDemandDecoder/src/PyNvSampleReader.cpp:367-382 | the synchronous RGB decode waits, clears the slot and then runs, leaving the protocol idle |
| AsyncResult.DecodeSync | packages/on_demand_video_decoder/ext_impl/src/PyNvOnDemandDecoder/src/PyNvSampleReader.cpp:329-341 | the synchronous YUV decode waits but keeps any stored async result |
| AsyncResult.WaitNeverBlocks | packages/on_demand_video_decoder/ext_impl/src/PyNvOnDemandDecoder/src/PyNvSampleReader.cpp:614-624 | while at most one result is outstanding, waiting always returns |
| AsyncResult.OneOutstandingPreserved | packages/on_demand_video_decoder/ext_impl/src/PyNvOnDemandDecoder/src/PyNvSampleReader.cpp:677-796 | with the corrected submit, every operation keeps "pending and stored are never both present", so no call blocks |
| AsyncResult.SecondGetBufferFails | packages/on_demand_video_decoder/ext_impl/src/PyNvOnDemandDecoder/src/PyNvSampleReader.cpp:763-772 | while pending and stored are never both present (kept only by the corrected submit), a retrieval leaves the protocol idle, so an immediate second retrieval reports no pending task |
| AsyncResult.NewestResultWins | packages/on_demand_video_decoder/ext_impl/src/PyNvOnDemandDecoder/src/PyNvSampleReader.cpp:682-700 | with the corrected submit, after two submits, retrieving with the second request's parameters returns the second request's outcome |
| AsyncResult.StaleResultAsWritten | packages/on_demand_video_decoder/ext_impl/src/PyNvOnDemandDecoder/src/PyNvSampleReader.cpp:682-700 | submit A, A finishes, submit B: retrieving for B pops A's result and reports a mismatch; if another submit or a sync decode comes first instead, it waits forever on B's blocked push |
| AsyncResult.StaleResultCorrected | packages/on_demand_video_decoder/ext_impl/src/PyNvOnDemandDecoder/src/PyNvSampleReader.cpp:682-700 | the same sequence with the corrected submit returns B's frames |
| GopCache.Hits | packages/on_demand_video_decoder/accvlab/on_demand_video_decoder/_internal/decoder.py:85-99 | one flag per zipped (path, frame) pair, true iff the path is cached and the frame lies in `[first, first + len)` |
| GopCache.ClearCache | packages/on_demand_video_decoder/accvlab/on_demand_video_decoder/_internal/decoder.py:201-207 | after clearing nothing hits |
| GopCache.Store | packages/on_demand_video_decoder/accvlab/on_demand_video_decoder/_internal/decoder.py:153-156 | other paths keep their entries; each fetched path ends up cached with the entry of its last occurrence; a result with an empty list is an error |
| GopCache.Lookup | packages/on_demand_video_decoder/accvlab/on_demand_video_decoder/_internal/decoder.py:187-191 | reading the cache for every path succeeds iff all are cached and gives the entries in request order; otherwise it names a missing path |
| GopCache.MergeCached | packages/on_demand_video_decoder/accvlab/on_demand_video_decoder/_internal/decoder.py:173-199 | first ids and lengths in request order; one path returns its packets unmerged, several are merged |
| GopCache.GetGop | packages/on_demand_video_decoder/accvlab/on_demand_video_decoder/_internal/decoder.py:101-159 | without the cache it passes through and records all-false hits; with it, the recorded hits are the hit list, all hits are served from the cache, and any miss refetches and stores every path |
| GopCache.AllHitServedFromCache | packages/on_demand_video_decoder/accvlab/on_demand_video_decoder/_internal/decoder.py:144-146 | when every path hits, the cache is untouched and the answer is built from the cached entries |
| GopCache.AnyMissRefetchesAll | packages/on_demand_video_decoder/accvlab/on_demand_video_decoder/_internal/decoder.py:148-159 | one miss makes every path's entry the freshly fetched one |
| GopCache.MissIndices | packages/on_demand_video_decoder/accvlab/on_demand_video_decoder/_internal/decoder.py:305 | exactly the missed positions, ascending; empty iff all hit |
| GopCache.AsGopList | packages/on_demand_video_decoder/accvlab/on_demand_video_decoder/_internal/decoder.py:322-329 | one `(packets, [first], [len])` per entry, in order |
| GopCache.GetGopList | packages/on_demand_video_decoder/accvlab/on_demand_video_decoder/_internal/decoder.py:248-329 | without the cache it passes through; with it, the recorded hits are the hit list, only missed paths get new entries, and the answer has one cached entry per path in request order |
| GopCache.MissPaths | packages/on_demand_video_decoder/accvlab/on_demand_video_decoder/_internal/decoder.py:305-310 | the paths of the missed pairs in request order, each one a miss |
| GopCache.MissIds | packages/on_demand_video_decoder/accvlab/on_demand_video_decoder/_internal/decoder.py:305-310 | the frame ids of the missed pairs in request order, each one a miss |
| GopCache.AllHitListServedFromCache | packages/on_demand_video_decoder/accvlab/on_demand_video_decoder/_internal/decoder.py:300-329 | with as many ids as paths and every pair a hit, the call succeeds, leaves the cache as it was and answers each path with its cached GOP |
| GopCache.MissesFetchedAndStored | packages/on_demand_video_decoder/accvlab/on_demand_video_decoder/_internal/decoder.py:307-329 | when the native call answers every missed pair with non-empty lists, the call succeeds; each missed path's entry is its last fetched GOP and the answer at that position is that GOP |
| GopCache.RepeatIsAllHit | packages/on_demand_video_decoder/accvlab/on_demand_video_decoder/_internal/decoder.py:226-246 | repeating a request whose frames now hit records all-true hits and returns the same answer from an unchanged cache |
| GopCache.IsCacheHitList | packages/on_demand_video_decoder/accvlab/on_demand_video_decoder/_internal/decoder.py:226-246 | a fresh decoder reports no hits |
| DropCache.Value | packages/on_demand_video_decoder/accvlab/on_demand_video_decoder/utils.py:27-32 | the status values are 0 to 3, and 0 is SUCCESS alone |
| DropCache.DropSingle | packages/on_demand_video_decoder/accvlab/on_demand_video_decoder/utils.py:35-65 | PLATFORM_ERROR off Linux; on Linux SUCCESS, FADVISE_FAILED or UNKNOWN_ERROR exactly as the calls complete, raise OSError or raise anything else |
| DropCache.DropVideosCache | packages/on_demand_video_decoder/accvlab/on_demand_video_decoder/utils.py:118-122 | visits files in order, stops at the first failure and returns its status; success means every file was attempted and succeeded |
| DropCache.FirstFailureCharacterized | packages/on_demand_video_decoder/accvlab/on_demand_video_decoder/utils.py:118-122 | the fold succeeds iff every file does, and otherwise returns the earliest failing file's status |
| DropCache.EmptyListSucceeds | packages/on_demand_video_decoder/accvlab/on_demand_video_decoder/utils.py:118-122 | an empty list returns SUCCESS |
| DropCache.FailFast | packages/on_demand_video_decoder/accvlab/on_demand_video_decoder/utils.py:118-121 | files after the first failure do not change the status |
| DropCache.OffLinuxPlatformError | packages/on_demand_video_decoder/accvlab/on_demand_video_decoder/utils.py:50-51 | off Linux a non-empty list reports PLATFORM_ERROR |
| DropCache.DropVideosCacheAsWritten | packages/on_demand_video_decoder/accvlab/on_demand_video_decoder/utils.py:118-122 | as written: the first failure's integer value on failure, the enum member on success |
| DropCache.FailureReturnsInt | packages/on_demand_video_decoder/accvlab/on_demand_video_decoder/utils.py:121 | a missing file makes the as-written function return the int 2, not FADVISE_FAILED |
| ReadmeSync.FindFrom | docs/sync_root_readme_for_docs.py:54-59 | the first occurrence of a pattern at or after a position, or none when there is none |
| ReadmeSync.FindFinds | docs/sync_root_readme_for_docs.py:54-58 | the search finds something iff the pattern occurs (Python's `in`) |
| ReadmeSync.ReplaceFirst | docs/sync_root_readme_for_docs.py:59 | replacing once rewrites the first occurrence only, or returns the text when there is none |
| ReadmeSync.TransformLeavesNoDocsGuides | docs/sync_root_readme_for_docs.py:28-38 | the output contains no `](docs/guides/` |
| ReadmeSync.ReplaceAll | docs/sync_root_readme_for_docs.py:38 | Python's `str.replace`: the result is no longer than the input when the replacement is no longer than the pattern, and no shorter when it is no shorter |
| ReadmeSync.ReplaceAllKeepsClean | docs/sync_root_readme_for_docs.py:38 | text in which the pattern does not occur is returned unchanged |
| ReadmeSync.TransformLinks | docs/sync_root_readme_for_docs.py:28-38 | the rewrite never lengthens the text (`../guides/` is shorter than `docs/guides/`) |
| ReadmeSync.TransformLinksSplits | docs/sync_root_readme_for_docs.py:38 | a link is rewritten wherever it stands: the text around it is rewritten independently, for every text before and after |
| ReadmeSync.PlainPrefixKept | docs/sync_root_readme_for_docs.py:38 | a prefix without `]` is copied unchanged; only link text is rewritten |
| ReadmeSync.TransformLinksIdempotent | docs/sync_root_readme_for_docs.py:28-38 | applying transform_links twice equals applying it once |
| ReadmeSync.TransformLinksExample | docs/sync_root_readme_for_docs.py:32-36 | `[Guide](docs/guides/a.md)` becomes `[Guide](../guides/a.md)` |
| ReadmeSync.AddQuickStartLabel | docs/sync_root_readme_for_docs.py:41-62 | label present: unchanged; no label and no heading: unchanged; otherwise the label and a newline are inserted right before the first `## Quick Start` |
| ReadmeSync.AddQuickStartLabelIdempotent | docs/sync_root_readme_for_docs.py:50-59 | applying add_quick_start_label twice equals applying it once |
| ReadmeSync.LabelBeforeFirstHeadingOnly | docs/sync_root_readme_for_docs.py:58-59 | with two Quick Start headings only the first gets the label |

## Left out

- FFmpeg, CUDA, the NVIDIA decoder, colour conversion, the GPU memory pools
  and the pybind11 bindings are not modelled. The demuxer is an oracle and the
  decoder and fetch calls are parameters.
- PyNvGopDecoder_constructors.cpp is not part of this model. It holds binding,
  CUDA-context and lazy-initialisation code.
- The serialized packet-bundle format (`parseSerializedPacketData`,
  `MergePacketDataToOne`) is not modelled. Its byte layout is not shown, so
  bundles are opaque values of a type parameter and merging is an oracle.
- ThreadPool.hpp (`ThreadRunner`, `process_frames_in_parallel`) is not
  modelled. Its point is concurrency, and which worker's exception surfaces
  is nondeterministic.
- The asynchronous worker runs as one atomic completion step. The result
  queue is a one-element slot whose push blocks while it is occupied. The
  queue's header is not shown, so that blocking is an assumption taken from
  the worker's comment.
- The internal "result not ready" error of `GetBuffer` is not modelled. The
  worker always stores a ready result, so that error cannot be raised.
- Exception and warning message texts, and the debug printing, are not
  modelled. Errors are datatype values carrying the data the message shows.
- The debug and file helpers of GopDecoderUtils.hpp (`exec`, `fileExists`,
  the `write*`/`read*` helpers, `SavePacketBufferToFile`) are not modelled.
  They are I/O.
- `get_cache_info` is not modelled. It only reports the cache contents.
- The `fastStreamInfos` argument of the cache wrapper is not modelled. It is
  only passed to the native calls.
- The system calls of `_drop_single_video_cache` are not modelled. An oracle
  reports how they end for each path.
- `SeekWithTS` is modelled as a function of the requested timestamp alone.
  The demuxer's internal read position is not modelled.
- GopDemuxer.SeekLoop, GopDemuxer.GopSeekLoop: neither loop has a bound in
  the source. Each takes a fuel parameter, and running out of fuel is a
  separate `OutOfFuel` outcome that says nothing about the source.
- GopIndex.SortByTimestamp: `std::sort` is not stable, and the model sorts
  with a stable insertion sort. Every property of the loop after the sort is
  proved for any timestamp-sorted permutation, so the choice of tie order
  does not matter to them.
- LfuCache.Empty: capacity is a `nat`. A negative `int` capacity, which the
  source compares with a `size_t` size, is not modelled.
- LfuCache.Put: requires a non-empty minFreq list when the cache is full,
  which the cache invariant provides (LfuCache.PutValid).
- SampleReader.AdmitReaders: requires `num_of_file >= 0` and one reader map
  per file slot, as the constructor sets them up.
- SampleReader.GenerateRequestKey, SampleReader.KeyEntries: require at least
  as many ids as paths. With fewer, the source reads past the end of
  `frame_ids`.
- SampleReader.ValidateRequest: requires at least as many ids as paths once
  the lengths agree, for the same out-of-bounds read.
- GopDemuxer.GetKeyFrameId: requires the frame to lie between the first and
  the last key. Outside that range the source dereferences out of bounds.
- Nal.HasKeyFrameNalType, Nal.IsKeyFrame, GopIndex.CollectPairs,
  GopIndex.ParseGopStartIdx, GopDemuxer.Demux, GopDemuxer.GopSeekLoop,
  GopDemuxer.GopSeekStep, GopDemuxer.SeekGopFirstFrame: require every
  classified H.264 or HEVC packet to hold the start code and the header byte
  (more than 3 bytes when `p[2]` is 1, more than 4 otherwise) and every AV1
  packet to be non-empty. The source checks only that a packet is non-empty
  and then reads `pVideo[2]` and `pVideo[3]` or `pVideo[4]` unchecked, so a
  shorter non-empty packet is an out-of-bounds read that the model excludes
  rather than assigns a result.
- AsyncResult.SecondGetBufferFails: requires that pending and stored are
  never both present. The as-written submit breaks that (see
  AsyncResult.StaleResultAsWritten): after the mismatch pop, the blocked push
  completes and a second retrieval returns B's result instead of reporting no
  pending task.
- GopIndex.ParseGopLength, GopIndex.EmitGops: require a non-empty, ascending
  frame list, as the source assumes of its caller.
- GopCache.IsCacheHitList: its own contract states only the fresh-decoder
  case. That it returns the last call's hit list is stated by the
  `lastHits` clauses of GopCache.GetGop and GopCache.GetGopList.
- The int64 `Demux` timestamps and frame ids are unbounded integers, except
  for the explicit 32-bit narrowing in `SeekGopFirstFrameNoMap`.

## Findings

| source | as written | input that shows it | evidently intended | confidence | as-written member | corrected member |
|---|---|---|---|---|---|---|
| packages/on_demand_video_decoder/ext_impl/src/PyNvOnDemandDecoder/src/PyNvSampleReader.cpp:682-700 | `DecodeN12ToRGBAsync` empties the result slot only when a task is still pending. A finished but unretrieved result stays in the slot. | Submit A; A finishes; submit B. B's worker blocks on the slot A's result still occupies. Retrieving with B's parameters pops A's result and reports a parameter mismatch; if another submit or a sync decode comes first instead, it waits forever on B's blocked push. | Every submit discards an unconsumed result, so only the newest request's result can be retrieved. | not executed | AsyncResult.Submit (shown by AsyncResult.StaleResultAsWritten) | AsyncResult.SubmitClearing (AsyncResult.StaleResultCorrected, AsyncResult.OneOutstandingPreserved, AsyncResult.NewestResultWins) |
| packages/on_demand_video_decoder/accvlab/on_demand_video_decoder/utils.py:118-122 | `drop_videos_cache` returns `status.value`, an int, on failure, but the enum member on success. | One missing file on Linux returns `2`, which does not compare equal to `DropCacheStatus.FADVISE_FAILED`. | It returns the `DropCacheStatus` member in every case, as its signature and docstring promise. | not executed | DropCache.DropVideosCacheAsWritten (shown by DropCache.FailureReturnsInt) | DropCache.DropVideosCache (DropCache.FirstFailureCharacterized) |
