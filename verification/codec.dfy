/**
 * The packed constant-pool word: a 3-bit type tag in the top bits and a
 * 29-bit payload below it, read back either unsigned (ids) or sign-extended
 * (literal offsets). Also the transient pair of two 16-bit indices used
 * between the constant-pool passes. All values are Java `int`s, i.e. `bv32`.
 *
 * Each bit-level fact is proved on its own in a one-line lemma and the
 * round-trip lemmas assemble them.
 */
module CpCodec {

  /** Internal packed tags (3 bits). */
  const CP_UTF: bv8 := 0
  const CP_INT: bv8 := 1
  const CP_FLOAT: bv8 := 2
  const CP_LONG: bv8 := 3
  const CP_DOUBLE: bv8 := 4
  const CP_CLASS: bv8 := 5
  const CP_STRING: bv8 := 6
  const CP_MEMBER: bv8 := 7

  const PAYLOAD_MASK: bv32 := 0x1fff_ffff
  const BITS_IN_SHORT: bv32 := 16

  /** The value is a non-negative int below 2^29. */
  predicate FitsUnsigned29(v: bv32) {
    v <= 0x1fff_ffff
  }

  /** The value, read as a two's-complement int, lies in [-2^28, 2^28). */
  predicate FitsSigned29(v: bv32) {
    v < 0x1000_0000 || v >= 0xF000_0000
  }

  /** Two's-complement reading of a Java int. */
  function SignedValue(w: bv32): int {
    if w < 0x8000_0000 then w as int else w as int - 0x1_0000_0000
  }

  /**
   * `(type << 29) | (value & 0x1fffffff)`. The byte is widened to an int
   * before the shift; only its low three bits survive the shift, so the
   * sign extension of the widening cannot show in the result.
   */
  function PackCPEntry(tag: bv8, value: bv32): (w: bv32)
    ensures UnpackCPType(w) == tag & 7
  {
    ((tag as bv32) << 29) | (value & 0x1fff_ffff)
  }

  /** `(byte)(cpValue >>> 29)`: the top three bits. */
  function UnpackCPType(w: bv32): (t: bv8)
    ensures t < 8
  {
    (w >> 29) as bv8
  }

  /** `cpValue & 0x1fffffff`: the payload read unsigned. */
  function UnpackUnsignedCPValue(w: bv32): (v: bv32)
    ensures FitsUnsigned29(v)
  {
    w & 0x1fff_ffff
  }

  /**
   * Java's arithmetic right shift by three (`x >> 3` on an int): the logical
   * shift with the sign bit copied into the three vacated top bits.
   */
  function ArithmeticShiftRight3(x: bv32): bv32 {
    (x >> 3) | ((0 - (x >> 31)) << 29)
  }

  /** `(cpValue << 3) >> 3`: the payload sign-extended from bit 28. */
  function UnpackSignedCPValue(w: bv32): (v: bv32)
    ensures FitsSigned29(v)
  {
    ArithmeticShiftRight3(w << 3)
  }

  /** `(cpValue & (7 << 29)) == (CP_CLASS << 29)`. */
  function PackedCPTypeIsClassType(w: bv32): (b: bool)
    ensures b <==> UnpackCPType(w) == CP_CLASS
  {
    (w & (7 << 29)) == ((CP_CLASS as bv32) << 29)
  }

  /** `(index1 << 16) | (index2 & 0xffff)`. */
  function PackTempCPEntry(index1: bv32, index2: bv32): (w: bv32)
    ensures UnpackTempCPIndex2(w) == index2 & 0xffff
  {
    (index1 << 16) | (index2 & 0xffff)
  }

  /** `cpValue >>> 16`. */
  function UnpackTempCPIndex1(w: bv32): (i: bv32)
    ensures i <= 0xffff
  {
    w >> 16
  }

  /** `cpValue & 0xffff`. */
  function UnpackTempCPIndex2(w: bv32): (i: bv32)
    ensures i <= 0xffff
  {
    w & 0xffff
  }

  /** The name half of a name-and-type word as the EnclosingMethod attribute reads it. */
  function HighShort(w: bv32): bv32 {
    w >> BITS_IN_SHORT
  }

  /** The descriptor half of a name-and-type word as the EnclosingMethod attribute reads it. */
  function LowShort(w: bv32): bv32 {
    w & ((1 << BITS_IN_SHORT) - 1)
  }

  // ------------------------------------------------- single bit-level facts

  lemma UnsignedOfPack(tag: bv8, value: bv32)
    ensures UnpackUnsignedCPValue(PackCPEntry(tag, value)) == value & PAYLOAD_MASK
  {
  }

  lemma SignedDependsOnPayload(w: bv32, w': bv32)
    ensures w & PAYLOAD_MASK == w' & PAYLOAD_MASK ==> UnpackSignedCPValue(w) == UnpackSignedCPValue(w')
  {
  }

  lemma SignedFixesSmallValues(v: bv32)
    ensures FitsSigned29(v) ==> UnpackSignedCPValue(v) == v
  {
  }

  lemma SignedOfPack(tag: bv8, value: bv32)
    ensures FitsSigned29(value) ==> UnpackSignedCPValue(PackCPEntry(tag, value)) == value
  {
    UnsignedOfPack(tag, value);
    SignedDependsOnPayload(PackCPEntry(tag, value), value);
    SignedFixesSmallValues(value);
  }

  lemma SignedKeepsPayload(w: bv32)
    ensures UnpackSignedCPValue(w) & PAYLOAD_MASK == w & PAYLOAD_MASK
  {
  }

  lemma SignedCopiesBit28(w: bv32)
    ensures (w & 0x1000_0000 == 0) <==> UnpackSignedCPValue(w) < 0x8000_0000
  {
  }

  lemma FitsSignedRange(v: bv32)
    ensures FitsSigned29(v) <==> -0x1000_0000 <= SignedValue(v) < 0x1000_0000
  {
    var n := v as int;
    if v < 0x8000_0000 {
      assert n < 0x8000_0000;
      assert SignedValue(v) == n;
      assert v < 0x1000_0000 <==> n < 0x1000_0000;
      assert !(v >= 0xF000_0000);
    } else {
      assert n >= 0x8000_0000;
      assert SignedValue(v) == n - 0x1_0000_0000;
      assert v >= 0xF000_0000 <==> n >= 0xF000_0000;
      assert !(v < 0x1000_0000);
    }
  }

  lemma TempIndex1OfPack(index1: bv32, index2: bv32)
    ensures index1 <= 0xffff ==> UnpackTempCPIndex1(PackTempCPEntry(index1, index2)) == index1
  {
  }

  lemma HighShortIsIndex1(w: bv32)
    ensures HighShort(w) == UnpackTempCPIndex1(w)
  {
  }

  lemma LowShortIsIndex2(w: bv32)
    ensures LowShort(w) == UnpackTempCPIndex2(w)
  {
  }

  lemma ReassembleWord(w: bv32)
    ensures PackCPEntry(UnpackCPType(w), UnpackUnsignedCPValue(w)) == w
  {
  }

  // ---------------------------------------------------- round-trip lemmas

  /**
   * For every one of the eight tags and every value, packing then unpacking
   * recovers the tag, and recovers the value unsigned when it fits 29 bits.
   */
  lemma UnsignedRoundTrip(tag: bv8, value: bv32)
    requires tag < 8
    requires FitsUnsigned29(value)
    ensures UnpackCPType(PackCPEntry(tag, value)) == tag
    ensures UnpackUnsignedCPValue(PackCPEntry(tag, value)) == value
  {
    UnsignedOfPack(tag, value);
  }

  /**
   * For every int `v` in [-2^28, 2^28), packing then unpacking signed
   * recovers `v`, as an int and as a word.
   */
  lemma SignedRoundTrip(tag: bv8, value: bv32)
    requires -0x1000_0000 <= SignedValue(value) < 0x1000_0000
    ensures UnpackSignedCPValue(PackCPEntry(tag, value)) == value
    ensures SignedValue(UnpackSignedCPValue(PackCPEntry(tag, value))) == SignedValue(value)
  {
    FitsSignedRange(value);
    SignedOfPack(tag, value);
  }

  /**
   * The signed reading is the sign extension of the 29-bit payload: it keeps
   * the payload bits, lands in [-2^28, 2^28), and is negative exactly when
   * bit 28 is set.
   */
  lemma SignedIsSignExtension(w: bv32)
    ensures UnpackSignedCPValue(w) & PAYLOAD_MASK == w & PAYLOAD_MASK
    ensures -0x1000_0000 <= SignedValue(UnpackSignedCPValue(w)) < 0x1000_0000
    ensures (w & 0x1000_0000 == 0) <==> SignedValue(UnpackSignedCPValue(w)) >= 0
  {
    SignedKeepsPayload(w);
    FitsSignedRange(UnpackSignedCPValue(w));
    SignedCopiesBit28(w);
  }

  /** A word is rebuilt from its tag and unsigned payload. */
  lemma PackUnpackIdentity(w: bv32)
    ensures PackCPEntry(UnpackCPType(w), UnpackUnsignedCPValue(w)) == w
  {
    ReassembleWord(w);
  }

  /**
   * Two 16-bit indices survive a temp-pair pack, and the raw
   * `>>> BITS_IN_SHORT` / mask reading used for EnclosingMethod gives the
   * same two indices.
   */
  lemma TempPairRoundTrip(index1: bv16, index2: bv16)
    ensures UnpackTempCPIndex1(PackTempCPEntry(index1 as bv32, index2 as bv32)) == index1 as bv32
    ensures UnpackTempCPIndex2(PackTempCPEntry(index1 as bv32, index2 as bv32)) == index2 as bv32
    ensures HighShort(PackTempCPEntry(index1 as bv32, index2 as bv32)) == index1 as bv32
    ensures LowShort(PackTempCPEntry(index1 as bv32, index2 as bv32)) == index2 as bv32
  {
    var w := PackTempCPEntry(index1 as bv32, index2 as bv32);
    TempIndex1OfPack(index1 as bv32, index2 as bv32);
    HighShortIsIndex1(w);
    LowShortIsIndex2(w);
  }

  /** The eight packed tags are pairwise distinct. */
  lemma PackedTagsDistinct()
    ensures |{CP_UTF, CP_INT, CP_FLOAT, CP_LONG, CP_DOUBLE, CP_CLASS, CP_STRING, CP_MEMBER}| == 8
  {
  }
}
