/** Key-frame classification of one compressed packet from the first bytes of
    its payload: the NAL unit header of H.264 (section 7.3.1 of ITU-T H.264)
    and HEVC (section 7.3.1.2 of ITU-T H.265), found after an Annex B start
    code, and the OBU header of AV1 (section 5.3.2 of the AV1 Bitstream
    Specification). */
module Nal {
  import opened Common

  type Byte = bv8

  /** The codec identifiers the classifiers distinguish; any other FFmpeg
      codec id is carried as `OtherCodec`. */
  datatype Codec = H264 | Hevc | Av1 | OtherCodec(id: int)

  /** std::domain_error raised for a codec outside H.264, HEVC and AV1. */
  datatype CodecError = UnsupportedCodec(id: int)

  // nal_unit_type values of ITU-T H.264 Table 7-1 used by the classifier.
  const H264_NAL_SLICE := 1
  const H264_NAL_SEI := 6
  const H264_NAL_SPS := 7
  const H264_NAL_PPS := 8
  const H264_NAL_AUD := 9

  // nal_unit_type values of ITU-T H.265 Table 7-1 used by the classifier.
  const HEVC_NAL_VPS := 32
  const HEVC_NAL_SPS := 33
  const HEVC_NAL_PPS := 34
  const HEVC_NAL_PREFIX_SEI := 39
  const HEVC_NAL_SUFFIX_SEI := 40

  // obu_type of a sequence header OBU (section 6.2.2 of the AV1 specification).
  const OBU_SEQUENCE_HEADER := 1

  // Packet flags reported by the FFmpeg demuxer.
  const AV_PKT_FLAG_KEY: bv32 := 0x0001
  const AV_PKT_FLAG_DISPOSABLE: bv32 := 0x0010

  /* ---------- Reference header layouts, in integer arithmetic ---------- */

  /** H.264 nal_unit_header: forbidden_zero_bit f(1), nal_ref_idc u(2),
      nal_unit_type u(5), most significant bit first. */
  datatype H264Header = H264Header(forbiddenZeroBit: nat, nalRefIdc: nat, nalUnitType: nat)

  predicate ValidH264Header(h: H264Header) {
    h.forbiddenZeroBit < 2 && h.nalRefIdc < 4 && h.nalUnitType < 32
  }

  function ParseH264Header(b: Byte): (h: H264Header)
    ensures ValidH264Header(h)
  {
    var v := b as int;
    H264Header(v / 128, (v / 32) % 4, v % 32)
  }

  function PackH264Header(h: H264Header): Byte
    requires ValidH264Header(h)
  {
    (h.forbiddenZeroBit * 128 + h.nalRefIdc * 32 + h.nalUnitType) as Byte
  }

  /** First byte of the HEVC nal_unit_header: forbidden_zero_bit f(1),
      nal_unit_type u(6), then the most significant bit of nuh_layer_id. */
  datatype HevcHeaderByte = HevcHeaderByte(forbiddenZeroBit: nat, nalUnitType: nat, layerIdHighBit: nat)

  predicate ValidHevcHeaderByte(h: HevcHeaderByte) {
    h.forbiddenZeroBit < 2 && h.nalUnitType < 64 && h.layerIdHighBit < 2
  }

  function ParseHevcHeaderByte(b: Byte): (h: HevcHeaderByte)
    ensures ValidHevcHeaderByte(h)
  {
    var v := b as int;
    HevcHeaderByte(v / 128, (v / 2) % 64, v % 2)
  }

  function PackHevcHeaderByte(h: HevcHeaderByte): Byte
    requires ValidHevcHeaderByte(h)
  {
    (h.forbiddenZeroBit * 128 + h.nalUnitType * 2 + h.layerIdHighBit) as Byte
  }

  /** AV1 obu_header: obu_forbidden_bit f(1), obu_type f(4),
      obu_extension_flag f(1), obu_has_size_field f(1), obu_reserved_1bit f(1). */
  datatype ObuHeader = ObuHeader(forbiddenBit: nat, obuType: nat, extensionFlag: nat,
                                 hasSizeField: nat, reservedBit: nat)

  predicate ValidObuHeader(h: ObuHeader) {
    h.forbiddenBit < 2 && h.obuType < 16 && h.extensionFlag < 2 && h.hasSizeField < 2 && h.reservedBit < 2
  }

  function ParseObuHeader(b: Byte): (h: ObuHeader)
    ensures ValidObuHeader(h)
  {
    var v := b as int;
    ObuHeader(v / 128, (v / 8) % 16, (v / 4) % 2, (v / 2) % 2, v % 2)
  }

  function PackObuHeader(h: ObuHeader): Byte
    requires ValidObuHeader(h)
  {
    (h.forbiddenBit * 128 + h.obuType * 8 + h.extensionFlag * 4 + h.hasSizeField * 2 + h.reservedBit) as Byte
  }

  /** Euclidean division is determined by any quotient/remainder pair. */
  lemma DivModUnique(v: int, d: int, q: int, r: int)
    requires d > 0 && 0 <= r < d && v == q * d + r
    ensures v / d == q && v % d == r
  {
    var q', r' := v / d, v % d;
    assert (q - q') * d == r' - r;
    if q > q' {
      MulAtLeastFactor(q - q', d);
    } else if q < q' {
      MulAtLeastFactor(q' - q, d);
    }
  }

  lemma MulAtLeastFactor(k: int, d: int)
    requires k >= 1 && d > 0
    ensures k * d >= d
  {
    assert k * d == (k - 1) * d + d;
  }

  /** Converting an in-range integer to a byte and back is the identity. */
  lemma ByteRoundTrip(x: int)
    requires 0 <= x < 256
    ensures (x as Byte) as int == x
  {
    var w: bv16 := x as bv16;
    assert w < 256;
  }

  lemma H264FieldArithmetic(f: int, r: int, t: int)
    requires 0 <= f < 2 && 0 <= r < 4 && 0 <= t < 32
    ensures var v := f * 128 + r * 32 + t;
            0 <= v < 256 && v / 128 == f && (v / 32) % 4 == r && v % 32 == t
  {
    var v := f * 128 + r * 32 + t;
    assert 0 <= r * 32 <= 96;
    assert 0 <= f * 128 <= 128;
    DivModUnique(v, 128, f, r * 32 + t);
    assert v == (f * 4 + r) * 32 + t;
    DivModUnique(v, 32, f * 4 + r, t);
    DivModUnique(f * 4 + r, 4, f, r);
  }

  lemma H264HeaderRoundTrip(h: H264Header)
    requires ValidH264Header(h)
    ensures ParseH264Header(PackH264Header(h)) == h
  {
    var f, r, t := h.forbiddenZeroBit, h.nalRefIdc, h.nalUnitType;
    H264FieldArithmetic(f, r, t);
    ByteRoundTrip(f * 128 + r * 32 + t);
  }

  lemma HevcFieldArithmetic(f: int, t: int, l: int)
    requires 0 <= f < 2 && 0 <= t < 64 && 0 <= l < 2
    ensures var v := f * 128 + t * 2 + l;
            0 <= v < 256 && v / 128 == f && (v / 2) % 64 == t && v % 2 == l
  {
    var v := f * 128 + t * 2 + l;
    assert 0 <= t * 2 <= 126;
    assert 0 <= f * 128 <= 128;
    DivModUnique(v, 128, f, t * 2 + l);
    assert v == (f * 64 + t) * 2 + l;
    DivModUnique(v, 2, f * 64 + t, l);
    DivModUnique(f * 64 + t, 64, f, t);
  }

  lemma HevcHeaderRoundTrip(h: HevcHeaderByte)
    requires ValidHevcHeaderByte(h)
    ensures ParseHevcHeaderByte(PackHevcHeaderByte(h)) == h
  {
    var f, t, l := h.forbiddenZeroBit, h.nalUnitType, h.layerIdHighBit;
    HevcFieldArithmetic(f, t, l);
    ByteRoundTrip(f * 128 + t * 2 + l);
  }

  lemma ObuFieldArithmetic(f: int, t: int, e: int, s: int, z: int)
    requires 0 <= f < 2 && 0 <= t < 16 && 0 <= e < 2 && 0 <= s < 2 && 0 <= z < 2
    ensures var v := f * 128 + t * 8 + e * 4 + s * 2 + z;
            0 <= v < 256 && v / 128 == f && (v / 8) % 16 == t && (v / 4) % 2 == e &&
            (v / 2) % 2 == s && v % 2 == z
  {
    var low := e * 4 + s * 2 + z;
    var v := f * 128 + t * 8 + low;
    assert 0 <= t * 8 <= 120;
    assert 0 <= f * 128 <= 128;
    DivModUnique(v, 128, f, t * 8 + low);
    assert v == (f * 16 + t) * 8 + low;
    DivModUnique(v, 8, f * 16 + t, low);
    DivModUnique(f * 16 + t, 16, f, t);
    assert v == (f * 32 + t * 2 + e) * 4 + (s * 2 + z);
    DivModUnique(v, 4, f * 32 + t * 2 + e, s * 2 + z);
    DivModUnique(f * 32 + t * 2 + e, 2, f * 16 + t, e);
    assert v == (f * 64 + t * 4 + e * 2 + s) * 2 + z;
    DivModUnique(v, 2, f * 64 + t * 4 + e * 2 + s, z);
    DivModUnique(f * 64 + t * 4 + e * 2 + s, 2, f * 32 + t * 2 + e, s);
  }

  lemma ObuHeaderRoundTrip(h: ObuHeader)
    requires ValidObuHeader(h)
    ensures ParseObuHeader(PackObuHeader(h)) == h
  {
    var f, t, e, s, z := h.forbiddenBit, h.obuType, h.extensionFlag, h.hasSizeField, h.reservedBit;
    ObuFieldArithmetic(f, t, e, s, z);
    ByteRoundTrip(f * 128 + t * 8 + e * 4 + s * 2 + z);
  }

  /* ---------- The bit operations of the source ---------- */

  /* The bit operations read as integer arithmetic on the byte's value. */

  lemma Low5Bits(b: Byte)
    ensures (b & 0x1F) as int == (b as int) % 32
  {
  }

  lemma ShiftRight5(b: Byte)
    ensures (b >> 5) as int == (b as int) / 32
  {
  }

  lemma ShiftRight1(b: Byte)
    ensures (b >> 1) as int == (b as int) / 2
  {
  }

  lemma ObuTypeBits(b: Byte)
    ensures ((b >> 3) & 0x0F) as int == ((b as int) / 8) % 16
  {
  }

  /** b >> 5 keeps forbidden_zero_bit above nal_ref_idc. */
  lemma RefBitsSplit(v: int)
    requires 0 <= v < 256
    ensures v / 32 == 4 * (v / 128) + (v / 32) % 4
  {
    if v < 128 {
      assert v / 32 < 4;
    } else {
      assert 4 <= v / 32 < 8;
    }
  }

  /** b >> 1 keeps forbidden_zero_bit above the HEVC nal_unit_type. */
  lemma HevcBitsSplit(v: int)
    requires 0 <= v < 256
    ensures v / 2 == 64 * (v / 128) + (v / 2) % 64
  {
    if v < 128 {
      assert v / 2 < 64;
    } else {
      assert 64 <= v / 2 < 128;
    }
  }

  /** `b & 0x1f`: the H.264 nal_unit_type. */
  function H264TypeBits(b: Byte): (t: int)
    ensures t == ParseH264Header(b).nalUnitType
  {
    Low5Bits(b);
    (b & 0x1F) as int
  }

  /** `b >> 5`: nal_ref_idc together with forbidden_zero_bit above it. */
  function H264RefBits(b: Byte): (r: int)
    ensures r == 4 * ParseH264Header(b).forbiddenZeroBit + ParseH264Header(b).nalRefIdc
  {
    ShiftRight5(b);
    RefBitsSplit(b as int);
    (b >> 5) as int
  }

  /** `b >> 1`: the HEVC nal_unit_type, with forbidden_zero_bit as bit 6
      (the source does not mask it, so a set forbidden bit yields 64 or more). */
  function HevcTypeBits(b: Byte): (t: int)
    ensures t == 64 * ParseHevcHeaderByte(b).forbiddenZeroBit + ParseHevcHeaderByte(b).nalUnitType
  {
    ShiftRight1(b);
    HevcBitsSplit(b as int);
    (b >> 1) as int
  }

  /** `(b >> 3) & 0x0f`: the AV1 obu_type. */
  function Av1TypeBits(b: Byte): (t: int)
    ensures t == ParseObuHeader(b).obuType
  {
    ObuTypeBits(b);
    ((b >> 3) & 0x0F) as int
  }

  /* ---------- Where the header byte sits ---------- */

  /** The bytes the H.264/HEVC classifier reads exist: index 2, then index 3
      after a 3-byte start code (p[2] == 1) or index 4 after a 4-byte one. */
  predicate StartCodeReadable(p: seq<Byte>) {
    |p| > 2 && (if p[2] == 1 then |p| > 3 else |p| > 4)
  }

  /** The first byte after the Annex B start code. */
  function NalHeaderByte(p: seq<Byte>): (b: Byte)
    requires StartCodeReadable(p)
    ensures p[2] == 1 ==> b == p[3]
    ensures p[2] != 1 ==> b == p[4]
  {
    if p[2] == 1 then p[3] else p[4]
  }

  /** Every byte the classifiers read of a packet of this codec exists. */
  predicate Readable(codec: Codec, p: seq<Byte>) {
    match codec
    case H264 => StartCodeReadable(p)
    case Hevc => StartCodeReadable(p)
    case Av1 => |p| > 0
    case OtherCodec(_) => true
  }

  /* ---------- The classifiers ---------- */

  /** Parameter-set, SEI or delimiter units that open a GOP, stated on the
      header fields of the standards rather than on the source's bit masks. */
  predicate H264OpensGop(b: Byte) {
    ParseH264Header(b).nalUnitType in {H264_NAL_SEI, H264_NAL_SPS, H264_NAL_PPS, H264_NAL_AUD}
  }

  predicate HevcOpensGop(b: Byte) {
    var h := ParseHevcHeaderByte(b);
    h.forbiddenZeroBit == 0 &&
    h.nalUnitType in {HEVC_NAL_VPS, HEVC_NAL_SPS, HEVC_NAL_PPS, HEVC_NAL_PREFIX_SEI, HEVC_NAL_SUFFIX_SEI}
  }

  predicate Av1OpensGop(b: Byte) {
    ParseObuHeader(b).obuType == OBU_SEQUENCE_HEADER
  }

  /** The source's comparisons of the masked H.264 type. */
  predicate H264MaskHit(t: int) {
    t == H264_NAL_SEI || t == H264_NAL_SPS || t == H264_NAL_PPS || t == H264_NAL_AUD
  }

  /** The source's comparisons of the shifted HEVC type. */
  predicate HevcMaskHit(t: int) {
    t == HEVC_NAL_VPS || t == HEVC_NAL_SPS || t == HEVC_NAL_PPS ||
    t == HEVC_NAL_PREFIX_SEI || t == HEVC_NAL_SUFFIX_SEI
  }

  /** The H.264 mask test is the Table 7-1 test on the header field. */
  lemma H264MaskAgrees(b: Byte)
    ensures H264MaskHit(H264TypeBits(b)) <==> H264OpensGop(b)
  {
  }

  /** The HEVC shift test is the Table 7-1 test on the header fields: a set
      forbidden bit pushes the shifted value to 64 or more. */
  lemma HevcMaskAgrees(b: Byte)
    ensures HevcMaskHit(HevcTypeBits(b)) <==> HevcOpensGop(b)
  {
    var h := ParseHevcHeaderByte(b);
    assert HevcTypeBits(b) == 64 * h.forbiddenZeroBit + h.nalUnitType;
  }

  /** hasKeyFrameNalType: the structural key-frame signal alone. A null
      packet is not a key frame; an unknown codec raises. */
  function HasKeyFrameNalType(codec: Codec, p: Option<seq<Byte>>): (r: Result<bool, CodecError>)
    requires p.Some? ==> Readable(codec, p.value)
    ensures p.None? ==> r == Ok(false)
    ensures p.Some? && codec.OtherCodec? ==> r == Err(UnsupportedCodec(codec.id))
    ensures p.Some? && codec == H264 ==> r == Ok(H264OpensGop(NalHeaderByte(p.value)))
    ensures p.Some? && codec == Hevc ==> r == Ok(HevcOpensGop(NalHeaderByte(p.value)))
    ensures p.Some? && codec == Av1 ==> r == Ok(Av1OpensGop(p.value[0]))
  {
    if p.None? then Ok(false)
    else
      match codec
      case Hevc =>
        var b := NalHeaderByte(p.value);
        HevcMaskAgrees(b);
        Ok(HevcMaskHit(HevcTypeBits(b)))
      case H264 =>
        var b := NalHeaderByte(p.value);
        H264MaskAgrees(b);
        Ok(H264MaskHit(H264TypeBits(b)))
      case Av1 =>
        Ok(Av1TypeBits(p.value[0]) == OBU_SEQUENCE_HEADER)
      case OtherCodec(id) =>
        Err(UnsupportedCodec(id))
  }

  /** The demuxer's key flag, `flags & AV_PKT_FLAG_KEY`. */
  predicate KeyFlagSet(flags: bv32) {
    flags & AV_PKT_FLAG_KEY != 0
  }

  /** iskeyFrame: a GOP boundary needs both the demuxer's key flag and a
      GOP-opening header. The codec is checked before the flag, so an
      unknown codec raises even when the flag is clear. */
  function IsKeyFrame(codec: Codec, p: Option<seq<Byte>>, flags: bv32): (r: Result<bool, CodecError>)
    requires p.Some? ==> Readable(codec, p.value)
    ensures HasKeyFrameNalType(codec, p).Err? ==> r == HasKeyFrameNalType(codec, p)
    ensures HasKeyFrameNalType(codec, p).Ok? ==>
              r == Ok(KeyFlagSet(flags) && HasKeyFrameNalType(codec, p).value)
  {
    if p.None? then Ok(false)
    else
      var structural :=
        match codec
        case Hevc =>
          Ok(HevcMaskHit(HevcTypeBits(NalHeaderByte(p.value))))
        case H264 =>
          Ok(H264MaskHit(H264TypeBits(NalHeaderByte(p.value))))
        case Av1 =>
          Ok(Av1TypeBits(p.value[0]) == OBU_SEQUENCE_HEADER)
        case OtherCodec(id) =>
          Err(UnsupportedCodec(id));
      match structural
      case Err(e) => Err(e)
      case Ok(bPS) => Ok(KeyFlagSet(flags) && bPS)
  }
}
