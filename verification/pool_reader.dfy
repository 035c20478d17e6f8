/**
 * Pass 1 of constant-pool construction: the entry count, then one tagged
 * entry per slot. Slot 0 is unused; a LONG or DOUBLE entry takes two slots,
 * the second of which keeps tag 0 and word 0. Literals and UTF entries are
 * interned and stored packed; TYPEREF and STRING slots keep the raw index of
 * their UTF entry, and member references and name-and-type entries keep a
 * temp pair of indices, for passes 2 and 3 to resolve.
 *
 * The source reads an entry and interns it before reading the next one. The
 * registries are deterministic and a failed read abandons the whole class,
 * so the model decodes the entries first (`ReadEntries`) and then lays out
 * the slots (`EntrySlots`); the pool it returns is the same.
 */
module PoolReader {
  import opened Outcomes
  import opened ByteInput
  import opened CpCodec
  import opened PoolScan
  import opened Collaborators

  /** The pool array and the parallel array of raw tags, as pass 1 leaves them. */
  datatype Pool = Pool(words: seq<bv32>, tags: seq<bv8>)

  /** A constant-pool entry as the class-file format lays it out. */
  datatype Entry =
    | Utf(length: bv16, bytes: seq<bv8>)
    | Int(bits: bv32)
    | Float(bits: bv32)
    | Long(wideBits: bv64)
    | Double(wideBits: bv64)
    | TypeRef(nameIndex: bv16)
    | StringRef(utfIndex: bv16)
    | MemberRef(tag: bv8, classIndex: bv16, nameAndTypeIndex: bv16)
    | NameAndType(nameIndex: bv16, descriptorIndex: bv16)

  /** A UTF entry's u2 length prefix counts its bytes; a member reference carries one of the three member tags. */
  predicate ValidEntry(e: Entry) {
    match e
    case Utf(length, bytes) => |bytes| == length as nat
    case MemberRef(tag, _, _) => IsMemberRefTag(tag)
    case _ => true
  }

  /** Every entry of a run is well formed. */
  predicate ValidEntries(es: seq<Entry>) {
    forall k | 0 <= k < |es| :: ValidEntry(es[k])
  }

  function EntryTag(e: Entry): bv8 {
    match e
    case Utf(_, _) => TAG_UTF
    case Int(_) => TAG_INT
    case Float(_) => TAG_FLOAT
    case Long(_) => TAG_LONG
    case Double(_) => TAG_DOUBLE
    case TypeRef(_) => TAG_TYPEREF
    case StringRef(_) => TAG_STRING
    case MemberRef(tag, _, _) => tag
    case NameAndType(_, _) => TAG_MEMBERNAME_AND_DESCRIPTOR
  }

  /** The bytes of an entry after its tag. */
  function EntryPayload(e: Entry): seq<bv8> {
    match e
    case Utf(length, bytes) => U2Bytes(length) + bytes
    case Int(bits) => U4Bytes(bits)
    case Float(bits) => U4Bytes(bits)
    case Long(bits) => U8Bytes(bits)
    case Double(bits) => U8Bytes(bits)
    case TypeRef(index) => U2Bytes(index)
    case StringRef(index) => U2Bytes(index)
    case MemberRef(_, index1, index2) => U2Bytes(index1) + U2Bytes(index2)
    case NameAndType(index1, index2) => U2Bytes(index1) + U2Bytes(index2)
  }

  function EncodeEntry(e: Entry): seq<bv8> {
    [EntryTag(e)] + EntryPayload(e)
  }

  function EncodeEntries(es: seq<Entry>): seq<bv8> {
    if es == [] then [] else EncodeEntry(es[0]) + EncodeEntries(es[1..])
  }

  /** The word pass 1 stores for an entry, given what the registries answer. */
  function EntryWord(e: Entry, reg: Registries): bv32 {
    match e
    case Utf(_, bytes) => PackCPEntry(CP_UTF, reg.atom(bytes))
    case Int(bits) => PackCPEntry(CP_INT, reg.intLiteral(bits))
    case Float(bits) => PackCPEntry(CP_FLOAT, reg.intLiteral(bits))
    case Long(bits) => PackCPEntry(CP_LONG, reg.longLiteral(bits))
    case Double(bits) => PackCPEntry(CP_DOUBLE, reg.longLiteral(bits))
    case TypeRef(index) => index as bv32
    case StringRef(index) => index as bv32
    case MemberRef(_, index1, index2) => PackTempCPEntry(index1 as bv32, index2 as bv32)
    case NameAndType(index1, index2) => PackTempCPEntry(index1 as bv32, index2 as bv32)
  }

  /** The slots an entry occupies: LONG and DOUBLE take two. */
  function SlotCount(es: seq<Entry>): nat {
    if es == [] then 0 else Step(EntryTag(es[0])) + SlotCount(es[1..])
  }

  /** The slots pass 1 fills for a run of entries. */
  function EntrySlots(es: seq<Entry>, reg: Registries): (pool: Pool)
    ensures |pool.words| == |pool.tags| == SlotCount(es)
  {
    if es == [] then Pool([], [])
    else
      var rest := EntrySlots(es[1..], reg);
      if IsWideTag(EntryTag(es[0])) then
        Pool([EntryWord(es[0], reg), 0] + rest.words, [EntryTag(es[0]), 0] + rest.tags)
      else
        Pool([EntryWord(es[0], reg)] + rest.words, [EntryTag(es[0])] + rest.tags)
  }

  // ----------------------------------------------------------- decoding

  /** The body of a UTF entry: a u2 length, then that many bytes. */
  function ReadUtf(s: seq<bv8>): (r: Result<Read<Entry>>)
    ensures r.Ok? ==> r.value.value.Utf? && ValidEntry(r.value.value) && |r.value.rest| < |s|
  {
    var length :- ReadU2(s);
    var bytes :- ReadBlock(length.rest, length.value as nat);
    Ok(Read(Utf(length.value, bytes.value), bytes.rest))
  }

  /** The body of an INT or FLOAT entry: four bytes. */
  function ReadWord(s: seq<bv8>, t: bv8): (r: Result<Read<Entry>>)
    ensures r.Ok? ==> (if t == TAG_INT then r.value.value.Int? else r.value.value.Float?) && |r.value.rest| < |s|
  {
    var bits :- ReadU4(s);
    Ok(Read(if t == TAG_INT then Int(bits.value) else Float(bits.value), bits.rest))
  }

  /** The body of a LONG or DOUBLE entry: eight bytes. */
  function ReadWide(s: seq<bv8>, t: bv8): (r: Result<Read<Entry>>)
    ensures r.Ok? ==> (if t == TAG_LONG then r.value.value.Long? else r.value.value.Double?) && |r.value.rest| < |s|
  {
    var bits :- ReadU8(s);
    Ok(Read(if t == TAG_LONG then Long(bits.value) else Double(bits.value), bits.rest))
  }

  /** The body of a TYPEREF or STRING entry: the u2 index of a UTF entry. */
  function ReadIndex(s: seq<bv8>, t: bv8): (r: Result<Read<Entry>>)
    ensures r.Ok? ==> (if t == TAG_TYPEREF then r.value.value.TypeRef? else r.value.value.StringRef?) && |r.value.rest| < |s|
  {
    var index :- ReadU2(s);
    Ok(Read(if t == TAG_TYPEREF then TypeRef(index.value) else StringRef(index.value), index.rest))
  }

  /** The body of a member reference or name-and-type entry: two u2 indices. */
  function ReadPair(s: seq<bv8>, t: bv8): (r: Result<Read<Entry>>)
    requires IsMemberRefTag(t) || t == TAG_MEMBERNAME_AND_DESCRIPTOR
    ensures r.Ok? ==> ValidEntry(r.value.value) && EntryTag(r.value.value) == t && |r.value.rest| < |s|
  {
    var index1 :- ReadU2(s);
    var index2 :- ReadU2(index1.rest);
    Ok(Read(if t == TAG_MEMBERNAME_AND_DESCRIPTOR then NameAndType(index1.value, index2.value)
            else MemberRef(t, index1.value, index2.value), index2.rest))
  }

  /**
   * The body of an entry whose tag byte was `t`, read from the bytes after
   * the tag. A TAG_UNUSED byte is an internal-consistency failure; any other
   * byte outside the table is a bad constant pool.
   */
  function ReadBody(t: bv8, s: seq<bv8>): (r: Result<Read<Entry>>)
    ensures r.Ok? ==> ValidEntry(r.value.value) && EntryTag(r.value.value) == t && |r.value.rest| < |s|
    ensures t == TAG_UNUSED ==> r == Err(NotReached)
    ensures !Recognised(t) && t != TAG_UNUSED ==> r == Err(BadConstantPool(t))
  {
    if t == TAG_UTF then ReadUtf(s)
    else if t == TAG_UNUSED then Err(NotReached)
    else if t == TAG_INT || t == TAG_FLOAT then ReadWord(s, t)
    else if t == TAG_LONG || t == TAG_DOUBLE then ReadWide(s, t)
    else if t == TAG_TYPEREF || t == TAG_STRING then ReadIndex(s, t)
    else if IsMemberRefTag(t) || t == TAG_MEMBERNAME_AND_DESCRIPTOR then ReadPair(s, t)
    else Err(BadConstantPool(t))
  }

  /** One entry: its tag byte, then its body. */
  function ReadEntry(s: seq<bv8>): (r: Result<Read<Entry>>)
    ensures r.Ok? ==> ValidEntry(r.value.value) && |r.value.rest| < |s|
    ensures r.Ok? ==> EntryTag(r.value.value) == s[0]
    ensures |s| == 0 ==> r == Err(EndOfInput)
    ensures |s| > 0 && s[0] == TAG_UNUSED ==> r == Err(NotReached)
    ensures |s| > 0 && !Recognised(s[0]) && s[0] != TAG_UNUSED ==> r == Err(BadConstantPool(s[0]))
  {
    var tag :- ReadU1(s);
    ReadBody(tag.value, tag.rest)
  }

  /**
   * The entries for slots `i` up to `count`. An entry that falls on the last
   * slot ends the run even when it is a LONG or DOUBLE, so the entries may
   * take one slot more than remain.
   */
  function ReadEntries(s: seq<bv8>, i: nat, count: nat): (r: Result<Read<seq<Entry>>>)
    requires 1 <= i <= count
    decreases count - i
    ensures r.Ok? ==> |r.value.rest| <= |s|
  {
    if i == count then
      Ok(Read([], s))
    else
      var e :- ReadEntry(s);
      if i + Step(EntryTag(e.value)) > count then
        Ok(Read([e.value], e.rest))
      else
        var rest :- ReadEntries(e.rest, i + Step(EntryTag(e.value)), count);
        Ok(Read([e.value] + rest.value, rest.rest))
  }

  /** Putting a well-formed entry in front of a run. */
  lemma ConsEntries(e: Entry, more: seq<Entry>)
    requires ValidEntry(e) && ValidEntries(more)
    ensures ValidEntries([e] + more)
    ensures SlotCount([e] + more) == Step(EntryTag(e)) + SlotCount(more)
  {
    assert ([e] + more)[1..] == more;
  }

  /**
   * The entries read for slots `i` up to `count` are well formed and take
   * those slots, or one more when the last of them is wide.
   */
  lemma {:induction false} ReadEntriesShape(s: seq<bv8>, i: nat, count: nat)
    requires 1 <= i <= count
    requires ReadEntries(s, i, count).Ok?
    ensures ValidEntries(ReadEntries(s, i, count).value.value)
    ensures count - i <= SlotCount(ReadEntries(s, i, count).value.value) <= count - i + 1
    decreases count - i
  {
    if i < count {
      var e := ReadEntry(s).value;
      var next := i + Step(EntryTag(e.value));
      if next <= count {
        ReadEntriesShape(e.rest, next, count);
        var more := ReadEntries(e.rest, next, count).value.value;
        assert ReadEntries(s, i, count).value.value == [e.value] + more;
        ConsEntries(e.value, more);
      } else {
        assert ReadEntries(s, i, count).value.value == [e.value] + [];
        ConsEntries(e.value, []);
      }
    }
  }

  /** The entries read for a pool of `count` slots fill all of them but slot 0. */
  lemma ReadEntriesFillPool(s: seq<bv8>, count: nat)
    requires 1 <= count && ReadEntries(s, 1, count).Ok?
    ensures count <= 1 + SlotCount(ReadEntries(s, 1, count).value.value)
  {
    ReadEntriesShape(s, 1, count);
  }

  /**
   * The array of `n` slots pass 1 leaves: slot 0 unused, then the slots of
   * the entries, cut at `n` when the last entry is a wide one on the last
   * slot.
   */
  function LayOutPool(es: seq<Entry>, n: nat, reg: Registries): (pool: Pool)
    requires 1 <= n <= 1 + SlotCount(es)
    ensures |pool.words| == |pool.tags| == n
  {
    var slots := EntrySlots(es, reg);
    Pool(([0] + slots.words)[..n], ([0] + slots.tags)[..n])
  }

  /**
   * The constant pool: its u2 length, then the entries of slots 1 onwards,
   * laid out in an array of exactly that length.
   */
  function ReadConstantPool(s: seq<bv8>, reg: Registries): (r: Result<Read<Pool>>)
    ensures r.Ok? ==> |r.value.value.words| == |r.value.value.tags|
    ensures r.Ok? ==> |r.value.rest| <= |s| - 2
    ensures |s| < 2 ==> r == Err(EndOfInput)
  {
    var count :- ReadU2(s);
    if count.value == 0 then
      Ok(Read(Pool([], []), count.rest))
    else
      ReadPoolSlots(count.rest, count.value as nat, reg)
  }

  /** The entries of a pool of `n` slots, laid out in an array of exactly that length. */
  function ReadPoolSlots(s: seq<bv8>, n: nat, reg: Registries): (r: Result<Read<Pool>>)
    requires 1 <= n
    ensures r.Ok? ==> |r.value.value.words| == |r.value.value.tags| == n
    ensures r.Ok? ==> |r.value.rest| <= |s|
  {
    var es :- ReadEntries(s, 1, n);
    ReadEntriesFillPool(s, n);
    Ok(Read(LayOutPool(es.value, n, reg), es.rest))
  }

  // --------------------------------------------------------- round trip

  /** The encoding of an entry followed by more bytes: its tag, then its payload and the rest. */
  lemma TagThenPayload(e: Entry, rest: seq<bv8>)
    ensures |EncodeEntry(e) + rest| > 0 && (EncodeEntry(e) + rest)[0] == EntryTag(e)
    ensures (EncodeEntry(e) + rest)[1..] == EntryPayload(e) + rest
  {
    assert EncodeEntry(e) + rest == [EntryTag(e)] + (EntryPayload(e) + rest);
  }

  /** A UTF body, read field by field. */
  lemma ReadUtfFields(s: seq<bv8>, length: bv16, bytes: seq<bv8>, rest: seq<bv8>)
    requires length as nat == |bytes|
    requires ReadU2(s) == Ok(Read(length, bytes + rest))
    requires ReadBlock(bytes + rest, |bytes|) == Ok(Read(bytes, rest))
    ensures ReadUtf(s) == Ok(Read(Utf(length, bytes), rest))
  {
  }

  lemma ReadUtfEncoded(e: Entry, rest: seq<bv8>)
    requires e.Utf? && ValidEntry(e)
    ensures ReadBody(EntryTag(e), EntryPayload(e) + rest) == Ok(Read(e, rest))
  {
    assert EntryPayload(e) + rest == U2Bytes(e.length) + (e.bytes + rest);
    ReadU2Encoded(e.length, e.bytes + rest);
    ReadBlockEncoded(e.bytes, rest);
    ReadUtfFields(EntryPayload(e) + rest, e.length, e.bytes, rest);
  }

  lemma ReadWordEncoded(e: Entry, rest: seq<bv8>)
    requires e.Int? || e.Float?
    ensures ReadBody(EntryTag(e), EntryPayload(e) + rest) == Ok(Read(e, rest))
  {
    ReadU4Encoded(e.bits, rest);
  }

  lemma ReadWideEncoded(e: Entry, rest: seq<bv8>)
    requires e.Long? || e.Double?
    ensures ReadBody(EntryTag(e), EntryPayload(e) + rest) == Ok(Read(e, rest))
  {
    ReadU8Encoded(e.wideBits, rest);
  }

  lemma ReadIndexEncoded(e: Entry, rest: seq<bv8>)
    requires e.TypeRef? || e.StringRef?
    ensures ReadBody(EntryTag(e), EntryPayload(e) + rest) == Ok(Read(e, rest))
  {
    ReadU2Encoded(if e.TypeRef? then e.nameIndex else e.utfIndex, rest);
  }

  /** Two u2 indices back to back. */
  lemma PairEncoded(index1: bv16, index2: bv16, rest: seq<bv8>)
    ensures ReadU2(U2Bytes(index1) + U2Bytes(index2) + rest) == Ok(Read(index1, U2Bytes(index2) + rest))
    ensures ReadU2(U2Bytes(index2) + rest) == Ok(Read(index2, rest))
  {
    assert U2Bytes(index1) + U2Bytes(index2) + rest == U2Bytes(index1) + (U2Bytes(index2) + rest);
    ReadU2Encoded(index1, U2Bytes(index2) + rest);
    ReadU2Encoded(index2, rest);
  }

  lemma ReadMemberRefEncoded(e: Entry, rest: seq<bv8>)
    requires e.MemberRef? && ValidEntry(e)
    ensures ReadBody(EntryTag(e), EntryPayload(e) + rest) == Ok(Read(e, rest))
  {
    PairEncoded(e.classIndex, e.nameAndTypeIndex, rest);
  }

  lemma ReadNameAndTypeEncoded(e: Entry, rest: seq<bv8>)
    requires e.NameAndType?
    ensures ReadBody(EntryTag(e), EntryPayload(e) + rest) == Ok(Read(e, rest))
  {
    PairEncoded(e.nameIndex, e.descriptorIndex, rest);
  }

  /** Reading the body of an entry from its payload gives the entry back and the bytes after it. */
  lemma ReadBodyEncoded(e: Entry, rest: seq<bv8>)
    requires ValidEntry(e)
    ensures ReadBody(EntryTag(e), EntryPayload(e) + rest) == Ok(Read(e, rest))
  {
    match e
    case Utf(_, _) => ReadUtfEncoded(e, rest);
    case Int(_) => ReadWordEncoded(e, rest);
    case Float(_) => ReadWordEncoded(e, rest);
    case Long(_) => ReadWideEncoded(e, rest);
    case Double(_) => ReadWideEncoded(e, rest);
    case TypeRef(_) => ReadIndexEncoded(e, rest);
    case StringRef(_) => ReadIndexEncoded(e, rest);
    case MemberRef(_, _, _) => ReadMemberRefEncoded(e, rest);
    case NameAndType(_, _) => ReadNameAndTypeEncoded(e, rest);
  }

  /** Reading the encoding of an entry gives the entry back and the bytes after it. */
  lemma ReadEntryEncoded(e: Entry, rest: seq<bv8>)
    requires ValidEntry(e)
    ensures ReadEntry(EncodeEntry(e) + rest) == Ok(Read(e, rest))
  {
    TagThenPayload(e, rest);
    ReadBodyEncoded(e, rest);
  }

  /** One step of `ReadEntries` once the first entry is known. */
  lemma ReadEntriesStep(s: seq<bv8>, i: nat, count: nat, es: seq<Entry>, after: seq<bv8>, rest: seq<bv8>)
    requires es != [] && 1 <= i < count && i + Step(EntryTag(es[0])) <= count
    requires ReadEntry(s) == Ok(Read(es[0], after))
    requires ReadEntries(after, i + Step(EntryTag(es[0])), count) == Ok(Read(es[1..], rest))
    ensures ReadEntries(s, i, count) == Ok(Read(es, rest))
  {
    assert [es[0]] + es[1..] == es;
  }

  /** The first entry of an encoded run is read back first. */
  lemma ReadEntriesHead(es: seq<Entry>, rest: seq<bv8>)
    requires es != [] && ValidEntry(es[0])
    ensures ReadEntry(EncodeEntries(es) + rest) == Ok(Read(es[0], EncodeEntries(es[1..]) + rest))
  {
    assert EncodeEntries(es) + rest == EncodeEntry(es[0]) + (EncodeEntries(es[1..]) + rest);
    ReadEntryEncoded(es[0], EncodeEntries(es[1..]) + rest);
  }

  /** An encoded entry in front of an encoded run that `ReadEntries` already reads back. */
  lemma ReadEntriesCons(es: seq<Entry>, rest: seq<bv8>, i: nat, count: nat)
    requires es != [] && ValidEntry(es[0])
    requires 1 <= i && i + Step(EntryTag(es[0])) <= count
    requires ReadEntries(EncodeEntries(es[1..]) + rest, i + Step(EntryTag(es[0])), count) == Ok(Read(es[1..], rest))
    ensures ReadEntries(EncodeEntries(es) + rest, i, count) == Ok(Read(es, rest))
  {
    ReadEntriesHead(es, rest);
    ReadEntriesStep(EncodeEntries(es) + rest, i, count, es, EncodeEntries(es[1..]) + rest, rest);
  }

  lemma ReadEntriesNil(es: seq<Entry>, rest: seq<bv8>, i: nat)
    requires es == [] && 1 <= i
    ensures ReadEntries(EncodeEntries(es) + rest, i, i) == Ok(Read(es, rest))
  {
    assert EncodeEntries(es) + rest == rest;
  }

  /** Reading the encoding of a run of entries that fills slots `i` up to `count` gives the run back. */
  lemma {:induction false} ReadEntriesEncoded(es: seq<Entry>, rest: seq<bv8>, i: nat, count: nat)
    requires ValidEntries(es)
    requires 1 <= i && count == i + SlotCount(es)
    ensures ReadEntries(EncodeEntries(es) + rest, i, count) == Ok(Read(es, rest))
    decreases es
  {
    if es != [] {
      var next := i + Step(EntryTag(es[0]));
      assert count == next + SlotCount(es[1..]);
      ReadEntriesEncoded(es[1..], rest, next, count);
      ReadEntriesCons(es, rest, i, count);
    } else {
      ReadEntriesNil(es, rest, i);
    }
  }

  /** When the entries fill the pool exactly, nothing is cut. */
  lemma LayOutWhole(es: seq<Entry>, n: nat, reg: Registries)
    requires n == 1 + SlotCount(es)
    ensures LayOutPool(es, n, reg) == Pool([0] + EntrySlots(es, reg).words, [0] + EntrySlots(es, reg).tags)
  {
    var slots := EntrySlots(es, reg);
    assert ([0] + slots.words)[..n] == [0] + slots.words;
    assert ([0] + slots.tags)[..n] == [0] + slots.tags;
  }

  /** `ReadConstantPool` once its count and its entries are known. */
  lemma ReadConstantPoolSteps(s: seq<bv8>, count: bv16, n: nat, after: seq<bv8>, es: seq<Entry>, rest: seq<bv8>, reg: Registries)
    requires count as nat == n && n == 1 + SlotCount(es)
    requires ReadU2(s) == Ok(Read(count, after))
    requires ReadEntries(after, 1, n) == Ok(Read(es, rest))
    ensures ReadConstantPool(s, reg) == Ok(Read(LayOutPool(es, n, reg), rest))
  {
  }

  /**
   * Reading a pool whose u2 count is one more than the slots its entries
   * take gives back slot 0 and the slots of those entries, and the bytes
   * after them.
   */
  lemma ReadConstantPoolEncoded(count: bv16, es: seq<Entry>, rest: seq<bv8>, reg: Registries)
    requires ValidEntries(es)
    requires count as nat == 1 + SlotCount(es)
    ensures ReadConstantPool(U2Bytes(count) + EncodeEntries(es) + rest, reg) ==
      Ok(Read(Pool([0] + EntrySlots(es, reg).words, [0] + EntrySlots(es, reg).tags), rest))
  {
    var after := EncodeEntries(es) + rest;
    assert U2Bytes(count) + EncodeEntries(es) + rest == U2Bytes(count) + after;
    ReadU2Encoded(count, after);
    ReadEntriesEncoded(es, rest, 1, count as nat);
    ReadConstantPoolSteps(U2Bytes(count) + after, count, count as nat, after, es, rest, reg);
    LayOutWhole(es, count as nat, reg);
  }

  // ------------------------------------------------------------- layout

  /** The word pass 1 stores for an entry with raw tag `tag` has the expected shape. */
  predicate EntryWordShape(tag: bv8, w: bv32) {
    && (tag == TAG_UTF ==> UnpackCPType(w) == CP_UTF)
    && (tag == TAG_INT ==> UnpackCPType(w) == CP_INT)
    && (tag == TAG_FLOAT ==> UnpackCPType(w) == CP_FLOAT)
    && (tag == TAG_LONG ==> UnpackCPType(w) == CP_LONG)
    && (tag == TAG_DOUBLE ==> UnpackCPType(w) == CP_DOUBLE)
    && (tag == TAG_TYPEREF || tag == TAG_STRING ==> w <= 0xffff)
  }

  lemma EntryWordHasShape(e: Entry, reg: Registries)
    requires ValidEntry(e)
    ensures Recognised(EntryTag(e)) && EntryWordShape(EntryTag(e), EntryWord(e, reg))
  {
  }

  /** What pass 1 guarantees about a slot the later passes visit. */
  ghost predicate SlotShape(pool: Pool, j: nat)
    requires j < |pool.words| == |pool.tags|
  {
    && Recognised(pool.tags[j])
    && EntryWordShape(pool.tags[j], pool.words[j])
    && (IsWideTag(pool.tags[j]) && j + 1 < |pool.tags| ==> pool.tags[j + 1] == 0 && pool.words[j + 1] == 0)
  }

  /**
   * The layout passes 2 and 3 rely on: slot 0 is empty, every slot they
   * visit holds a recognised entry of the expected shape, and the slot after
   * a visited LONG or DOUBLE is a filler with tag 0 and word 0.
   */
  ghost predicate PassOneLayout(pool: Pool) {
    && |pool.words| == |pool.tags|
    && (|pool.tags| > 0 ==> pool.tags[0] == 0 && pool.words[0] == 0)
    && forall j: nat :: IsScanned(pool.tags, j) ==> SlotShape(pool, j)
  }

  /** The first slot of a run of entries is shaped by the first entry. */
  lemma HeadSlot(es: seq<Entry>, reg: Registries, pool: Pool, i: nat)
    requires ValidEntries(es)
    requires |pool.words| == |pool.tags| && i < |pool.tags| <= i + SlotCount(es)
    requires pool.words[i..] == EntrySlots(es, reg).words[..|pool.words| - i]
    requires pool.tags[i..] == EntrySlots(es, reg).tags[..|pool.tags| - i]
    ensures SlotShape(pool, i)
  {
    var e := es[0];
    assert pool.tags[i] == pool.tags[i..][0] == EntryTag(e);
    assert pool.words[i] == pool.words[i..][0] == EntryWord(e, reg);
    EntryWordHasShape(e, reg);
    if IsWideTag(EntryTag(e)) && i + 1 < |pool.tags| {
      assert pool.tags[i + 1] == pool.tags[i..][1] == 0;
      assert pool.words[i + 1] == pool.words[i..][1] == 0;
    }
  }

  lemma SlotsAfterHead(es: seq<Entry>, reg: Registries)
    requires es != []
    ensures EntrySlots(es, reg).words[Step(EntryTag(es[0]))..] == EntrySlots(es[1..], reg).words
    ensures EntrySlots(es, reg).tags[Step(EntryTag(es[0]))..] == EntrySlots(es[1..], reg).tags
  {
  }

  /** Dropping `k` more from a suffix that matches a prefix of `full` matches a prefix of `full[k..]`. */
  lemma DropOfWindow<T>(xs: seq<T>, full: seq<T>, i: nat, k: nat, m: nat)
    requires i <= |xs| && m == |xs| - i && m <= |full| && k <= m
    requires xs[i..] == full[..m]
    ensures xs[i + k..] == full[k..][..m - k]
  {
    assert xs[i + k..] == xs[i..][k..];
    assert full[..m][k..] == full[k..][..m - k];
  }

  /** The slots after the first entry's are laid out by the remaining entries. */
  lemma TailSlots(es: seq<Entry>, reg: Registries, pool: Pool, i: nat)
    requires ValidEntries(es)
    requires |pool.words| == |pool.tags| && i < |pool.tags| <= i + SlotCount(es)
    requires pool.words[i..] == EntrySlots(es, reg).words[..|pool.words| - i]
    requires pool.tags[i..] == EntrySlots(es, reg).tags[..|pool.tags| - i]
    requires i + Step(EntryTag(es[0])) <= |pool.tags|
    ensures pool.words[i + Step(EntryTag(es[0]))..] == EntrySlots(es[1..], reg).words[..|pool.words| - i - Step(EntryTag(es[0]))]
    ensures pool.tags[i + Step(EntryTag(es[0]))..] == EntrySlots(es[1..], reg).tags[..|pool.tags| - i - Step(EntryTag(es[0]))]
  {
    var k := Step(EntryTag(es[0]));
    var m := |pool.tags| - i;
    var full := EntrySlots(es, reg);
    SlotsAfterHead(es, reg);
    DropOfWindow(pool.words, full.words, i, k, m);
    DropOfWindow(pool.tags, full.tags, i, k, m);
  }

  lemma {:induction false} SlotsLayout(es: seq<Entry>, reg: Registries, pool: Pool, i: nat)
    requires ValidEntries(es)
    requires |pool.words| == |pool.tags| && i <= |pool.tags| <= i + SlotCount(es)
    requires pool.words[i..] == EntrySlots(es, reg).words[..|pool.words| - i]
    requires pool.tags[i..] == EntrySlots(es, reg).tags[..|pool.tags| - i]
    ensures forall j: nat :: ScannedFrom(pool.tags, i, j) ==> SlotShape(pool, j)
    decreases es
  {
    if i < |pool.tags| {
      HeadSlot(es, reg, pool, i);
      var next := i + Step(EntryTag(es[0]));
      assert pool.tags[i] == EntryTag(es[0]) by {
        assert pool.tags[i] == pool.tags[i..][0];
      }
      if next <= |pool.tags| {
        TailSlots(es, reg, pool, i);
        SlotsLayout(es[1..], reg, pool, next);
      }
      forall j: nat | ScannedFrom(pool.tags, i, j)
        ensures SlotShape(pool, j)
      {
        if j != i {
          assert ScannedFrom(pool.tags, next, j);
        }
      }
    }
  }

  /** Slot 0 left empty, then the slots of the entries cut to the pool's length, has the layout. */
  lemma LayoutOfEntries(es: seq<Entry>, reg: Registries, n: nat)
    requires ValidEntries(es)
    requires 1 <= n <= 1 + SlotCount(es)
    ensures PassOneLayout(LayOutPool(es, n, reg))
  {
    var slots := EntrySlots(es, reg);
    var pool := LayOutPool(es, n, reg);
    assert pool.words[1..] == slots.words[..n - 1];
    assert pool.tags[1..] == slots.tags[..n - 1];
    SlotsLayout(es, reg, pool, 1);
  }

  /** Whatever pass 1 returns has the layout passes 2 and 3 rely on. */
  lemma PassOneLayoutHolds(s: seq<bv8>, reg: Registries)
    requires ReadConstantPool(s, reg).Ok?
    ensures PassOneLayout(ReadConstantPool(s, reg).value.value)
  {
    var count := ReadU2(s).value;
    if count.value != 0 {
      var es := ReadEntries(count.rest, 1, count.value as nat).value.value;
      ReadEntriesShape(count.rest, 1, count.value as nat);
      LayoutOfEntries(es, reg, count.value as nat);
    }
  }
}
