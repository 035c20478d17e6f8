/**
 * Reading entries of a resolved constant pool. The source asserts the
 * packed tag of the slot it reads (when assertions are enabled); here the
 * assertion is a precondition of the accessor, and `TypeRefAt`/`UtfAt`
 * are the forms the reader itself uses, which report the failed assertion
 * or the out-of-range array access as an error.
 */
module PoolAccess {
  import opened Outcomes
  import opened CpCodec

  /** A slot exists and carries the packed tag `tag`. */
  predicate HasTag(cp: seq<bv32>, index: int, tag: bv8) {
    0 <= index < |cp| && UnpackCPType(cp[index]) == tag
  }

  /** Type reference of a CLASS slot; index 0 stands for the null reference. */
  function GetTypeRef(cp: seq<bv32>, index: nat): (r: Option<bv32>)
    requires index != 0 ==> HasTag(cp, index, CP_CLASS)
    ensures r.None? <==> index == 0
    ensures r.Some? ==> PackCPEntry(CP_CLASS, r.value) == cp[index] && FitsUnsigned29(r.value)
  {
    if index != 0 then
      PackUnpackIdentity(cp[index]);
      Some(UnpackUnsignedCPValue(cp[index]))
    else
      None
  }

  /** Atom of a UTF slot. */
  function GetUtf(cp: seq<bv32>, index: nat): (atom: bv32)
    requires HasTag(cp, index, CP_UTF)
    ensures PackCPEntry(CP_UTF, atom) == cp[index] && FitsUnsigned29(atom)
  {
    PackUnpackIdentity(cp[index]);
    UnpackUnsignedCPValue(cp[index])
  }

  /** Member reference of a MEMBER slot (`getMethodRef` and `getFieldRef` read it alike). */
  function GetMemberRef(cp: seq<bv32>, index: nat): (member: bv32)
    requires HasTag(cp, index, CP_MEMBER)
    ensures PackCPEntry(CP_MEMBER, member) == cp[index] && FitsUnsigned29(member)
  {
    PackUnpackIdentity(cp[index]);
    UnpackUnsignedCPValue(cp[index])
  }

  /** The literal slots `getLiteralSize` accepts. */
  predicate IsLiteralTag(t: bv8) {
    t == CP_INT || t == CP_FLOAT || t == CP_LONG || t == CP_DOUBLE || t == CP_CLASS || t == CP_STRING
  }

  /**
   * Size in bytes of a literal: 4 for INT/FLOAT, 8 for LONG/DOUBLE, one
   * address for CLASS/STRING (`addressBytes`, 4 or 8 depending on the
   * platform). Any other tag is unreachable.
   */
  function GetLiteralSize(cp: seq<bv32>, index: nat, addressBytes: nat): (size: nat)
    requires 0 <= index < |cp| && IsLiteralTag(UnpackCPType(cp[index]))
    ensures var t := UnpackCPType(cp[index]);
      && (t == CP_INT || t == CP_FLOAT ==> size == 4)
      && (t == CP_LONG || t == CP_DOUBLE ==> size == 8)
      && (t == CP_CLASS || t == CP_STRING ==> size == addressBytes)
  {
    var t := UnpackCPType(cp[index]);
    if t == CP_INT || t == CP_FLOAT then 4
    else if t == CP_LONG || t == CP_DOUBLE then 8
    else addressBytes
  }

  /** `getLiteralDescription`: the packed tag of a slot. */
  function GetLiteralDescription(cp: seq<bv32>, index: nat): (t: bv8)
    requires 0 <= index < |cp|
    ensures t < 8 && PackCPEntry(t, UnpackUnsignedCPValue(cp[index])) == cp[index]
  {
    PackUnpackIdentity(cp[index]);
    UnpackCPType(cp[index])
  }

  /**
   * `getLiteralOffset` for the non-CLASS literals: the sign-extended
   * payload, as a byte offset into the table of contents.
   */
  function GetLiteralOffset(cp: seq<bv32>, index: nat): (offset: int)
    requires 0 <= index < |cp| && IsLiteralTag(UnpackCPType(cp[index])) && UnpackCPType(cp[index]) != CP_CLASS
    ensures -0x1000_0000 <= offset < 0x1000_0000
  {
    SignedIsSignExtension(cp[index]);
    SignedValue(UnpackSignedCPValue(cp[index]))
  }

  /** A literal offset packed by pass 1 is read back unchanged. */
  lemma LiteralOffsetRoundTrip(cp: seq<bv32>, index: nat, tag: bv8, offset: bv32)
    requires 0 <= index < |cp| && tag in {CP_INT, CP_FLOAT, CP_LONG, CP_DOUBLE, CP_STRING}
    requires cp[index] == PackCPEntry(tag, offset)
    requires -0x1000_0000 <= SignedValue(offset) < 0x1000_0000
    ensures GetLiteralOffset(cp, index) == SignedValue(offset)
  {
    SignedRoundTrip(tag, offset);
  }

  /** `getTypeRef` with its assertion and array access made checks. */
  function TypeRefAt(cp: seq<bv32>, index: int): (r: Result<Option<bv32>>)
    requires 0 <= index
    ensures r.Ok? <==> index == 0 || HasTag(cp, index, CP_CLASS)
    ensures r.Ok? ==> r.value == GetTypeRef(cp, index)
    ensures index != 0 && index >= |cp| ==> r == Err(IndexOutOfRange(index))
  {
    if index == 0 then Ok(None)
    else if index >= |cp| then Err(IndexOutOfRange(index))
    else if UnpackCPType(cp[index]) != CP_CLASS then Err(WrongEntryKind(index))
    else Ok(GetTypeRef(cp, index))
  }

  /** `getUtf` with its assertion and array access made checks. */
  function UtfAt(cp: seq<bv32>, index: int): (r: Result<bv32>)
    requires 0 <= index
    ensures r.Ok? <==> HasTag(cp, index, CP_UTF)
    ensures r.Ok? ==> r.value == GetUtf(cp, index)
    ensures index >= |cp| ==> r == Err(IndexOutOfRange(index))
  {
    if index >= |cp| then Err(IndexOutOfRange(index))
    else if UnpackCPType(cp[index]) != CP_UTF then Err(WrongEntryKind(index))
    else Ok(GetUtf(cp, index))
  }
}
