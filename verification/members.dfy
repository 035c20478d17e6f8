/**
 * The part of a class file between the constant pool and the attributes:
 * the class's own modifiers and type, its super class, its interfaces, its
 * fields and its methods. Field and method records are read as far as their
 * name and descriptor by the reader itself; the rest of each record belongs
 * to the field or method sub-reader.
 */
module ClassMembers {
  import opened Outcomes
  import opened ByteInput
  import opened CpCodec
  import opened PoolAccess
  import opened Collaborators
  import opened ClassModifiers

  // ---------------------------------------------------------- identity

  /**
   * The check that the file holds the class it was asked for, as written:
   * a this-class index of 0 gives the null reference, which is unequal to
   * the expected type, and building the error message then dereferences it.
   */
  function CheckIdentityAsWritten(cp: seq<bv32>, typeRef: bv32, myIndex: bv16): (r: Result<bv32>)
    ensures r.Ok? ==> r.value == typeRef
    ensures r.Ok? <==>
      myIndex != 0 && HasTag(cp, myIndex as int, CP_CLASS) && GetTypeRef(cp, myIndex as nat) == Some(typeRef)
  {
    var found :- TypeRefAt(cp, myIndex as int);
    if found == Some(typeRef) then Ok(typeRef)
    else if found.None? then Err(NullDereference)
    else Err(IdentityMismatch(typeRef, found))
  }

  /** The same check reporting every mismatch, the null reference included, as a mismatch. */
  function CheckIdentity(cp: seq<bv32>, typeRef: bv32, myIndex: bv16): (r: Result<bv32>)
    ensures r.Ok? ==> r.value == typeRef
    ensures r.Ok? <==>
      myIndex != 0 && HasTag(cp, myIndex as int, CP_CLASS) && GetTypeRef(cp, myIndex as nat) == Some(typeRef)
  {
    var found :- TypeRefAt(cp, myIndex as int);
    if found == Some(typeRef) then Ok(typeRef) else Err(IdentityMismatch(typeRef, found))
  }

  /**
   * How the corrected check fails: a this-class index of 0, and a CLASS
   * slot naming another type, are both mismatches that name what was found.
   */
  lemma CheckIdentityCases(cp: seq<bv32>, typeRef: bv32, myIndex: bv16)
    ensures myIndex == 0 ==> CheckIdentity(cp, typeRef, myIndex) == Err(IdentityMismatch(typeRef, None))
    ensures myIndex != 0 && HasTag(cp, myIndex as int, CP_CLASS) && GetTypeRef(cp, myIndex as nat) != Some(typeRef) ==>
      CheckIdentity(cp, typeRef, myIndex) == Err(IdentityMismatch(typeRef, GetTypeRef(cp, myIndex as nat)))
  {
  }

  /** Away from index 0 the check as written and the corrected one agree. */
  lemma IdentityAgreesAwayFromZero(cp: seq<bv32>, typeRef: bv32, myIndex: bv16)
    requires myIndex != 0
    ensures CheckIdentityAsWritten(cp, typeRef, myIndex) == CheckIdentity(cp, typeRef, myIndex)
  {
    var found := TypeRefAt(cp, myIndex as int);
    if found.Ok? {
      assert found.value.Some? ==> GetTypeRef(cp, myIndex as nat).Some?;
    }
  }

  /**
   * A this-class index of 0 makes the check as written dereference the null
   * reference instead of reporting the mismatch.
   */
  lemma IdentityAsWrittenDereferencesNull(cp: seq<bv32>, typeRef: bv32)
    ensures CheckIdentityAsWritten(cp, typeRef, 0) == Err(NullDereference)
    ensures CheckIdentity(cp, typeRef, 0) == Err(IdentityMismatch(typeRef, None))
  {
  }

  // -------------------------------------------------------- super class

  /**
   * The super class: the u2 index is always read and checked, and its type
   * kept only for a class that is not an interface; index 0 is no super class.
   */
  function ReadSuperClass(s: seq<bv8>, cp: seq<bv32>, modifiers: bv16): (r: Result<Read<Option<bv32>>>)
    ensures r.Ok? ==> |r.value.rest| == |s| - 2
    ensures r.Ok? && modifiers & ACC_INTERFACE != 0 ==> r.value.value.None?
  {
    var index :- ReadU2(s);
    var superType :- TypeRefAt(cp, index.value as int);
    Ok(Read(if modifiers & ACC_INTERFACE == 0 then superType else None, index.rest))
  }

  /** An interface never has a super class; another class has the one its index names, if any. */
  lemma ReadSuperClassEncoded(index: bv16, rest: seq<bv8>, cp: seq<bv32>, modifiers: bv16)
    requires index == 0 || HasTag(cp, index as int, CP_CLASS)
    ensures ReadSuperClass(U2Bytes(index) + rest, cp, modifiers).Ok?
    ensures ReadSuperClass(U2Bytes(index) + rest, cp, modifiers).value.rest == rest
    ensures ReadSuperClass(U2Bytes(index) + rest, cp, modifiers).value.value.Some? <==>
      modifiers & ACC_INTERFACE == 0 && index != 0
    ensures ReadSuperClass(U2Bytes(index) + rest, cp, modifiers).value.value.Some? ==>
      ReadSuperClass(U2Bytes(index) + rest, cp, modifiers).value.value == GetTypeRef(cp, index as nat)
  {
    ReadU2Encoded(index, rest);
  }

  // --------------------------------------------------------- interfaces

  /** One interface: its type is resolved at once, so index 0 dereferences the null reference. */
  function ReadInterface(s: seq<bv8>, cp: seq<bv32>): (r: Result<Read<bv32>>)
    ensures r.Ok? ==> |r.value.rest| == |s| - 2
    ensures |s| >= 2 && Join16(s[0], s[1]) == 0 ==> r == Err(NullDereference)
  {
    var index :- ReadU2(s);
    var interfaceType :- TypeRefAt(cp, index.value as int);
    if interfaceType.None? then Err(NullDereference) else Ok(Read(interfaceType.value, index.rest))
  }

  /** Interfaces `i` up to `n`. */
  function ReadInterfaces(s: seq<bv8>, cp: seq<bv32>, i: nat, n: nat): (r: Result<Read<seq<bv32>>>)
    requires i <= n
    decreases n - i
    ensures r.Ok? ==> |r.value.value| == n - i && |r.value.rest| == |s| - 2 * (n - i)
  {
    if i == n then
      Ok(Read([], s))
    else
      var first :- ReadInterface(s, cp);
      var more :- ReadInterfaces(first.rest, cp, i + 1, n);
      Ok(Read([first.value] + more.value, more.rest))
  }

  /** The interface table: a u2 count, then one u2 CLASS index per interface. */
  function ReadInterfaceTable(s: seq<bv8>, cp: seq<bv32>): (r: Result<Read<seq<bv32>>>)
    ensures r.Ok? ==> |r.value.rest| <= |s| - 2
  {
    var count :- ReadU2(s);
    ReadInterfaces(count.rest, cp, 0, count.value as nat)
  }

  /** Indices of CLASS slots, as an interface table lists them. */
  predicate ClassIndices(cp: seq<bv32>, indices: seq<bv16>) {
    forall k | 0 <= k < |indices| :: indices[k] != 0 && HasTag(cp, indices[k] as int, CP_CLASS)
  }

  function EncodeIndices(indices: seq<bv16>): seq<bv8>
    decreases |indices|
  {
    if indices == [] then [] else U2Bytes(indices[0]) + EncodeIndices(indices[1..])
  }

  /** The type a non-zero CLASS slot names. */
  function ClassTypeAt(cp: seq<bv32>, index: bv16): bv32
    requires index != 0 && HasTag(cp, index as int, CP_CLASS)
  {
    GetTypeRef(cp, index as nat).value
  }

  /** The types the listed CLASS slots name. */
  function IndexedTypes(cp: seq<bv32>, indices: seq<bv16>): (types: seq<bv32>)
    requires ClassIndices(cp, indices)
    ensures |types| == |indices|
    ensures forall k | 0 <= k < |indices| :: Some(types[k]) == GetTypeRef(cp, indices[k] as nat)
  {
    seq(|indices|, k requires 0 <= k < |indices| => GetTypeRef(cp, indices[k] as nat).value)
  }

  lemma ReadInterfaceEncoded(index: bv16, rest: seq<bv8>, cp: seq<bv32>)
    requires index != 0 && HasTag(cp, index as int, CP_CLASS)
    ensures ReadInterface(U2Bytes(index) + rest, cp) == Ok(Read(GetTypeRef(cp, index as nat).value, rest))
  {
    ReadU2Encoded(index, rest);
  }

  /** Interfaces listed by CLASS slots are read back as the types those slots name, in order. */
  lemma {:induction false} ReadInterfacesEncoded(indices: seq<bv16>, rest: seq<bv8>, cp: seq<bv32>, i: nat)
    requires ClassIndices(cp, indices)
    ensures ReadInterfaces(EncodeIndices(indices) + rest, cp, i, i + |indices|) ==
      Ok(Read(IndexedTypes(cp, indices), rest))
    decreases |indices|
  {
    if indices == [] {
      assert EncodeIndices(indices) + rest == rest;
    } else {
      var tail := indices[1..];
      ClassIndicesTail(cp, indices);
      assert EncodeIndices(indices) + rest == U2Bytes(indices[0]) + (EncodeIndices(tail) + rest);
      ReadInterfaceEncoded(indices[0], EncodeIndices(tail) + rest, cp);
      ReadInterfacesEncoded(tail, rest, cp, i + 1);
      IndexedTypesCons(cp, indices);
    }
  }

  lemma ClassIndicesTail(cp: seq<bv32>, indices: seq<bv16>)
    requires ClassIndices(cp, indices) && indices != []
    ensures ClassIndices(cp, indices[1..])
  {
    var tail := indices[1..];
    forall k | 0 <= k < |tail| ensures tail[k] != 0 && HasTag(cp, tail[k] as int, CP_CLASS) {
      assert tail[k] == indices[k + 1];
    }
  }

  lemma IndexedTypesCons(cp: seq<bv32>, indices: seq<bv16>)
    requires ClassIndices(cp, indices) && indices != []
    ensures ClassIndices(cp, indices[1..])
    ensures IndexedTypes(cp, indices) == [ClassTypeAt(cp, indices[0])] + IndexedTypes(cp, indices[1..])
  {
    ClassIndicesTail(cp, indices);
    var tail := IndexedTypes(cp, indices[1..]);
    assert forall k | 0 <= k < |tail| :: Some(tail[k]) == GetTypeRef(cp, indices[k + 1] as nat);
  }

  /** A null interface index anywhere in the table fails the whole read once the reader gets to it. */
  lemma {:induction false} NullInterfaceFails(indices: seq<bv16>, after: seq<bv8>, cp: seq<bv32>, i: nat)
    requires ClassIndices(cp, indices)
    ensures ReadInterfaces(EncodeIndices(indices) + (U2Bytes(0) + after), cp, i, i + |indices| + 1) ==
      Err(NullDereference)
    decreases |indices|
  {
    if indices == [] {
      assert EncodeIndices(indices) + (U2Bytes(0) + after) == U2Bytes(0) + after;
      ReadU2Encoded(0, after);
    } else {
      var tail := indices[1..];
      ClassIndicesTail(cp, indices);
      var more := EncodeIndices(tail) + (U2Bytes(0) + after);
      assert EncodeIndices(indices) + (U2Bytes(0) + after) == U2Bytes(indices[0]) + more;
      ReadInterfaceEncoded(indices[0], more, cp);
      NullInterfaceFails(tail, after, cp, i + 1);
    }
  }

  // ---------------------------------------------------- fields and methods

  /** The start of a field or method record: modifiers, name index, descriptor index. */
  datatype MemberHeader = MemberHeader(modifiers: bv16, nameIndex: bv16, descriptorIndex: bv16)

  /** A declared field or method: its modifiers and the member reference for its name and descriptor. */
  datatype Member = Member(modifiers: bv16, memberRef: bv32)

  /** A declared method and whether its sub-reader found it to be the class initializer. */
  datatype Method = Method(member: Member, isClassInitializer: bool)

  function EncodeMemberHeader(h: MemberHeader): seq<bv8> {
    U2Bytes(h.modifiers) + U2Bytes(h.nameIndex) + U2Bytes(h.descriptorIndex)
  }

  /**
   * The header of a field or method: the name and the descriptor are atoms
   * of UTF slots, and the member reference is created in the class being
   * read.
   */
  function ReadMemberHeader(s: seq<bv8>, cp: seq<bv32>, typeRef: bv32, reg: Registries): (r: Result<Read<Member>>)
    ensures r.Ok? ==> |r.value.rest| == |s| - 6
  {
    var modifiers :- ReadU2(s);
    var nameIndex :- ReadU2(modifiers.rest);
    var name :- UtfAt(cp, nameIndex.value as int);
    var descriptorIndex :- ReadU2(nameIndex.rest);
    var descriptor :- UtfAt(cp, descriptorIndex.value as int);
    Ok(Read(Member(modifiers.value, reg.member(Some(typeRef), name, descriptor)), descriptorIndex.rest))
  }

  /** Both the name and the descriptor of a header are UTF slots. */
  predicate HeaderResolves(cp: seq<bv32>, h: MemberHeader) {
    HasTag(cp, h.nameIndex as int, CP_UTF) && HasTag(cp, h.descriptorIndex as int, CP_UTF)
  }

  /** The member a resolving header declares in class `typeRef`. */
  function DeclaredMember(cp: seq<bv32>, typeRef: bv32, reg: Registries, h: MemberHeader): Member
    requires HeaderResolves(cp, h)
  {
    Member(h.modifiers, reg.member(Some(typeRef), GetUtf(cp, h.nameIndex as nat), GetUtf(cp, h.descriptorIndex as nat)))
  }

  /**
   * An encoded header is read exactly when its name and descriptor are UTF
   * slots, and then gives the declared member and the bytes after it.
   */
  lemma ReadMemberHeaderEncoded(h: MemberHeader, rest: seq<bv8>, cp: seq<bv32>, typeRef: bv32, reg: Registries)
    ensures ReadMemberHeader(EncodeMemberHeader(h) + rest, cp, typeRef, reg).Ok? <==> HeaderResolves(cp, h)
    ensures HeaderResolves(cp, h) ==>
      ReadMemberHeader(EncodeMemberHeader(h) + rest, cp, typeRef, reg) == Ok(Read(DeclaredMember(cp, typeRef, reg, h), rest))
  {
    var s := EncodeMemberHeader(h) + rest;
    assert s == U2Bytes(h.modifiers) + (U2Bytes(h.nameIndex) + (U2Bytes(h.descriptorIndex) + rest));
    ReadU2Encoded(h.modifiers, U2Bytes(h.nameIndex) + (U2Bytes(h.descriptorIndex) + rest));
    ReadU2Encoded(h.nameIndex, U2Bytes(h.descriptorIndex) + rest);
    ReadU2Encoded(h.descriptorIndex, rest);
  }

  /** One field: the header, then the field sub-reader's part of the record. */
  function ReadField(s: seq<bv8>, cp: seq<bv32>, typeRef: bv32, reg: Registries, readers: SubReaders)
    : (r: Result<Read<Member>>)
    ensures r.Ok? ==> |r.value.rest| <= |s| - 6
  {
    var header :- ReadMemberHeader(s, cp, typeRef, reg);
    var field := header.value;
    var rest :- Advance(header.rest, readers.fieldReader(typeRef, cp, field.memberRef, field.modifiers, header.rest));
    Ok(Read(field, rest))
  }

  /** Fields `i` up to `n`. */
  function ReadFields(s: seq<bv8>, cp: seq<bv32>, typeRef: bv32, reg: Registries, readers: SubReaders, i: nat, n: nat)
    : (r: Result<Read<seq<Member>>>)
    requires i <= n
    decreases n - i
    ensures r.Ok? ==> |r.value.value| == n - i && |r.value.rest| <= |s| - 6 * (n - i)
  {
    if i == n then
      Ok(Read([], s))
    else
      var first :- ReadField(s, cp, typeRef, reg, readers);
      var more :- ReadFields(first.rest, cp, typeRef, reg, readers, i + 1, n);
      Ok(Read([first.value] + more.value, more.rest))
  }

  /** The field table: a u2 count, then the fields. */
  function ReadFieldTable(s: seq<bv8>, cp: seq<bv32>, typeRef: bv32, reg: Registries, readers: SubReaders)
    : (r: Result<Read<seq<Member>>>)
    ensures r.Ok? ==> |r.value.rest| <= |s| - 2
  {
    var count :- ReadU2(s);
    ReadFields(count.rest, cp, typeRef, reg, readers, 0, count.value as nat)
  }

  /**
   * A field whose sub-reader consumes exactly its body is read as the member
   * its header declares, and the reader goes on after the body.
   */
  lemma ReadFieldEncoded(h: MemberHeader, body: seq<bv8>, rest: seq<bv8>, cp: seq<bv32>, typeRef: bv32,
                         reg: Registries, readers: SubReaders)
    requires HeaderResolves(cp, h)
    requires var m := DeclaredMember(cp, typeRef, reg, h);
      readers.fieldReader(typeRef, cp, m.memberRef, m.modifiers, body + rest) == Some(|body|)
    ensures ReadField(EncodeMemberHeader(h) + (body + rest), cp, typeRef, reg, readers) ==
      Ok(Read(DeclaredMember(cp, typeRef, reg, h), rest))
  {
    ReadMemberHeaderEncoded(h, body + rest, cp, typeRef, reg);
    assert (body + rest)[|body|..] == rest;
  }

  /** A field or method record as the class file holds it: the header, then the bytes its sub-reader reads. */
  datatype MemberRecord = MemberRecord(header: MemberHeader, body: seq<bv8>)

  function EncodeMemberRecords(recs: seq<MemberRecord>): seq<bv8>
    decreases |recs|
  {
    if recs == [] then [] else EncodeMemberHeader(recs[0].header) + recs[0].body + EncodeMemberRecords(recs[1..])
  }

  /** Splitting off the first record of an encoded run. */
  lemma EncodeMemberRecordsCons(recs: seq<MemberRecord>, rest: seq<bv8>)
    requires recs != []
    ensures EncodeMemberRecords(recs) + rest ==
      EncodeMemberHeader(recs[0].header) + (recs[0].body + (EncodeMemberRecords(recs[1..]) + rest))
  {
  }

  /** Every header of the run names UTF slots. */
  predicate HeadersResolve(cp: seq<bv32>, recs: seq<MemberRecord>) {
    forall k | 0 <= k < |recs| :: HeaderResolves(cp, recs[k].header)
  }

  /** The members the headers of a run declare in class `typeRef`, in order. */
  function DeclaredMembers(cp: seq<bv32>, typeRef: bv32, reg: Registries, recs: seq<MemberRecord>): (ms: seq<Member>)
    requires HeadersResolve(cp, recs)
    ensures |ms| == |recs|
    ensures forall k | 0 <= k < |recs| :: ms[k] == DeclaredMember(cp, typeRef, reg, recs[k].header)
  {
    seq(|recs|, k requires 0 <= k < |recs| => DeclaredMember(cp, typeRef, reg, recs[k].header))
  }

  /** A resolving header in front of a resolving run. */
  lemma DeclaredMembersCons(cp: seq<bv32>, typeRef: bv32, reg: Registries, recs: seq<MemberRecord>)
    requires recs != [] && HeaderResolves(cp, recs[0].header) && HeadersResolve(cp, recs[1..])
    ensures HeadersResolve(cp, recs)
    ensures DeclaredMembers(cp, typeRef, reg, recs) ==
      [DeclaredMember(cp, typeRef, reg, recs[0].header)] + DeclaredMembers(cp, typeRef, reg, recs[1..])
  {
    forall k | 1 <= k < |recs| ensures HeaderResolves(cp, recs[k].header) {
      assert recs[1..][k - 1] == recs[k];
    }
  }

  /**
   * Every header of the run names UTF slots, and the field sub-reader, given
   * the bytes from a record's body on, consumes exactly that body.
   */
  predicate FieldBodiesConsumed(recs: seq<MemberRecord>, rest: seq<bv8>, cp: seq<bv32>, typeRef: bv32,
                                reg: Registries, readers: SubReaders)
    decreases |recs|
  {
    recs == [] ||
      (&& HeaderResolves(cp, recs[0].header)
       && (var m := DeclaredMember(cp, typeRef, reg, recs[0].header);
           readers.fieldReader(typeRef, cp, m.memberRef, m.modifiers, recs[0].body + (EncodeMemberRecords(recs[1..]) + rest))
             == Some(|recs[0].body|))
       && FieldBodiesConsumed(recs[1..], rest, cp, typeRef, reg, readers))
  }

  /** Unfolding the first record of a consumed run. */
  lemma FieldBodiesConsumedHead(recs: seq<MemberRecord>, rest: seq<bv8>, cp: seq<bv32>, typeRef: bv32,
                                reg: Registries, readers: SubReaders)
    requires recs != [] && FieldBodiesConsumed(recs, rest, cp, typeRef, reg, readers)
    ensures HeaderResolves(cp, recs[0].header)
    ensures var m := DeclaredMember(cp, typeRef, reg, recs[0].header);
      readers.fieldReader(typeRef, cp, m.memberRef, m.modifiers, recs[0].body + (EncodeMemberRecords(recs[1..]) + rest))
        == Some(|recs[0].body|)
    ensures FieldBodiesConsumed(recs[1..], rest, cp, typeRef, reg, readers)
  {
  }

  /** One step of `ReadFields` once the first field is known. */
  lemma ReadFieldsStep(s: seq<bv8>, cp: seq<bv32>, typeRef: bv32, reg: Registries, readers: SubReaders, i: nat, n: nat,
                       m: Member, after: seq<bv8>, ms: seq<Member>, rest: seq<bv8>)
    requires i < n
    requires ReadField(s, cp, typeRef, reg, readers) == Ok(Read(m, after))
    requires ReadFields(after, cp, typeRef, reg, readers, i + 1, n) == Ok(Read(ms, rest))
    ensures ReadFields(s, cp, typeRef, reg, readers, i, n) == Ok(Read([m] + ms, rest))
  {
  }

  /**
   * A run of field records whose bodies the sub-reader consumes exactly is
   * read back field by field: field `k` is the member header `k` declares,
   * and the reader goes on after the last body.
   */
  lemma {:induction false} ReadFieldsEncoded(recs: seq<MemberRecord>, rest: seq<bv8>, cp: seq<bv32>, typeRef: bv32,
                                             reg: Registries, readers: SubReaders, i: nat, n: nat)
    requires n == i + |recs|
    requires FieldBodiesConsumed(recs, rest, cp, typeRef, reg, readers)
    ensures HeadersResolve(cp, recs)
    ensures ReadFields(EncodeMemberRecords(recs) + rest, cp, typeRef, reg, readers, i, n) ==
      Ok(Read(DeclaredMembers(cp, typeRef, reg, recs), rest))
    decreases |recs|
  {
    if recs == [] {
      assert EncodeMemberRecords(recs) + rest == rest;
      assert DeclaredMembers(cp, typeRef, reg, recs) == [];
    } else {
      var h := recs[0].header;
      var tail := EncodeMemberRecords(recs[1..]) + rest;
      var s := EncodeMemberRecords(recs) + rest;
      FieldBodiesConsumedHead(recs, rest, cp, typeRef, reg, readers);
      EncodeMemberRecordsCons(recs, rest);
      assert s == EncodeMemberHeader(h) + (recs[0].body + tail);
      ReadFieldEncoded(h, recs[0].body, tail, cp, typeRef, reg, readers);
      var m := DeclaredMember(cp, typeRef, reg, h);
      assert ReadField(s, cp, typeRef, reg, readers) == Ok(Read(m, tail));
      ReadFieldsEncoded(recs[1..], rest, cp, typeRef, reg, readers, i + 1, n);
      var more := DeclaredMembers(cp, typeRef, reg, recs[1..]);
      assert ReadFields(tail, cp, typeRef, reg, readers, i + 1, n) == Ok(Read(more, rest));
      DeclaredMembersCons(cp, typeRef, reg, recs);
      ReadFieldsStep(s, cp, typeRef, reg, readers, i, n, m, tail, more, rest);
    }
  }

  /** A field table of `count` records reads back as the members their headers declare. */
  lemma ReadFieldTableEncoded(count: bv16, recs: seq<MemberRecord>, rest: seq<bv8>, cp: seq<bv32>, typeRef: bv32,
                              reg: Registries, readers: SubReaders)
    requires |recs| == count as nat && FieldBodiesConsumed(recs, rest, cp, typeRef, reg, readers)
    ensures HeadersResolve(cp, recs)
    ensures ReadFieldTable(U2Bytes(count) + (EncodeMemberRecords(recs) + rest), cp, typeRef, reg, readers) ==
      Ok(Read(DeclaredMembers(cp, typeRef, reg, recs), rest))
  {
    ReadU2Encoded(count, EncodeMemberRecords(recs) + rest);
    ReadFieldsEncoded(recs, rest, cp, typeRef, reg, readers, 0, count as nat);
  }

  /** One method: the header, then the method sub-reader's part of the record. */
  function ReadMethod(s: seq<bv8>, cp: seq<bv32>, typeRef: bv32, reg: Registries, readers: SubReaders)
    : (r: Result<Read<Method>>)
    ensures r.Ok? ==> |r.value.rest| <= |s| - 6
  {
    var header :- ReadMemberHeader(s, cp, typeRef, reg);
    var m := header.value;
    var record := readers.methodReader(typeRef, cp, m.memberRef, m.modifiers, header.rest);
    var rest :- Advance(header.rest, if record.Some? then Some(record.value.consumed) else None);
    Ok(Read(Method(m, record.value.isClassInitializer), rest))
  }

  /**
   * A method whose sub-reader consumes exactly its body is read as the member
   * its header declares, marked as the sub-reader found it.
   */
  lemma ReadMethodEncoded(h: MemberHeader, body: seq<bv8>, rest: seq<bv8>, cp: seq<bv32>, typeRef: bv32,
                          reg: Registries, readers: SubReaders, isClassInitializer: bool)
    requires HeaderResolves(cp, h)
    requires var m := DeclaredMember(cp, typeRef, reg, h);
      readers.methodReader(typeRef, cp, m.memberRef, m.modifiers, body + rest) == Some(MethodRecord(|body|, isClassInitializer))
    ensures ReadMethod(EncodeMemberHeader(h) + (body + rest), cp, typeRef, reg, readers) ==
      Ok(Read(Method(DeclaredMember(cp, typeRef, reg, h), isClassInitializer), rest))
  {
    ReadMemberHeaderEncoded(h, body + rest, cp, typeRef, reg);
    assert (body + rest)[|body|..] == rest;
  }

  /** The class initializer among `methods`: the last one that is one, if any. */
  function LastClassInitializer(methods: seq<Method>): (r: Option<Method>)
    ensures r.None? <==> forall k | 0 <= k < |methods| :: !methods[k].isClassInitializer
    ensures r.Some? ==> r.value in methods && r.value.isClassInitializer
  {
    if methods == [] then None
    else if methods[|methods| - 1].isClassInitializer then Some(methods[|methods| - 1])
    else LastClassInitializer(methods[..|methods| - 1])
  }

  /** The methods read and the class initializer among them. */
  datatype MethodTable = MethodTable(methods: seq<Method>, classInitializer: Option<Method>)

  /**
   * Methods `i` up to `n`, remembering the latest class initializer seen as
   * the reader's loop does; `latest` is the one seen before method `i`.
   */
  function ReadMethods(s: seq<bv8>, cp: seq<bv32>, typeRef: bv32, reg: Registries, readers: SubReaders,
                       latest: Option<Method>, i: nat, n: nat): (r: Result<Read<MethodTable>>)
    requires i <= n
    decreases n - i
    ensures r.Ok? ==> |r.value.value.methods| == n - i && |r.value.rest| <= |s| - 6 * (n - i)
    ensures r.Ok? ==>
      var last := LastClassInitializer(r.value.value.methods);
      r.value.value.classInitializer == if last.Some? then last else latest
  {
    if i == n then
      Ok(Read(MethodTable([], latest), s))
    else
      var first :- ReadMethod(s, cp, typeRef, reg, readers);
      var latest' := if first.value.isClassInitializer then Some(first.value) else latest;
      var more :- ReadMethods(first.rest, cp, typeRef, reg, readers, latest', i + 1, n);
      LastOfCons(first.value, more.value.methods);
      Ok(Read(MethodTable([first.value] + more.value.methods, more.value.classInitializer), more.rest))
  }

  /** The last class initializer of a longer list is the tail's, or else the head if it is one. */
  lemma {:induction false} LastOfCons(m: Method, more: seq<Method>)
    ensures LastClassInitializer([m] + more) ==
      if LastClassInitializer(more).Some? then LastClassInitializer(more)
      else if m.isClassInitializer then Some(m) else None
    decreases |more|
  {
    if more != [] {
      var last := |more| - 1;
      assert ([m] + more)[..|[m] + more| - 1] == [m] + more[..last];
      LastOfCons(m, more[..last]);
    }
  }

  /** The method table: a u2 count, then the methods; the class initializer is the last one. */
  function ReadMethodTable(s: seq<bv8>, cp: seq<bv32>, typeRef: bv32, reg: Registries, readers: SubReaders)
    : (r: Result<Read<MethodTable>>)
    ensures r.Ok? ==> |r.value.rest| <= |s| - 2
    ensures r.Ok? ==> r.value.value.classInitializer == LastClassInitializer(r.value.value.methods)
  {
    var count :- ReadU2(s);
    ReadMethods(count.rest, cp, typeRef, reg, readers, None, 0, count.value as nat)
  }
  /**
   * Every header of the run names UTF slots, and the method sub-reader, given
   * the bytes from a record's body on, consumes exactly that body and reports
   * the record's entry of `flags` as whether it is the class initializer.
   */
  predicate MethodBodiesConsumed(recs: seq<MemberRecord>, flags: seq<bool>, rest: seq<bv8>, cp: seq<bv32>,
                                 typeRef: bv32, reg: Registries, readers: SubReaders)
    decreases |recs|
  {
    && |flags| == |recs|
    && (recs == [] ||
         (&& HeaderResolves(cp, recs[0].header)
          && (var m := DeclaredMember(cp, typeRef, reg, recs[0].header);
              readers.methodReader(typeRef, cp, m.memberRef, m.modifiers, recs[0].body + (EncodeMemberRecords(recs[1..]) + rest))
                == Some(MethodRecord(|recs[0].body|, flags[0])))
          && MethodBodiesConsumed(recs[1..], flags[1..], rest, cp, typeRef, reg, readers)))
  }

  /** Unfolding the first record of a consumed run. */
  lemma MethodBodiesConsumedHead(recs: seq<MemberRecord>, flags: seq<bool>, rest: seq<bv8>, cp: seq<bv32>,
                                 typeRef: bv32, reg: Registries, readers: SubReaders)
    requires recs != [] && MethodBodiesConsumed(recs, flags, rest, cp, typeRef, reg, readers)
    ensures |flags| == |recs| && HeaderResolves(cp, recs[0].header)
    ensures var m := DeclaredMember(cp, typeRef, reg, recs[0].header);
      readers.methodReader(typeRef, cp, m.memberRef, m.modifiers, recs[0].body + (EncodeMemberRecords(recs[1..]) + rest))
        == Some(MethodRecord(|recs[0].body|, flags[0]))
    ensures MethodBodiesConsumed(recs[1..], flags[1..], rest, cp, typeRef, reg, readers)
  {
  }

  /** The methods the headers of a run declare in class `typeRef`, marked by `flags`, in order. */
  function DeclaredMethods(cp: seq<bv32>, typeRef: bv32, reg: Registries, recs: seq<MemberRecord>, flags: seq<bool>)
    : (ms: seq<Method>)
    requires HeadersResolve(cp, recs) && |flags| == |recs|
    ensures |ms| == |recs|
    ensures forall k | 0 <= k < |recs| :: ms[k] == Method(DeclaredMember(cp, typeRef, reg, recs[k].header), flags[k])
  {
    seq(|recs|, k requires 0 <= k < |recs| => Method(DeclaredMember(cp, typeRef, reg, recs[k].header), flags[k]))
  }

  /** A resolving header in front of a resolving run. */
  lemma DeclaredMethodsCons(cp: seq<bv32>, typeRef: bv32, reg: Registries, recs: seq<MemberRecord>, flags: seq<bool>)
    requires recs != [] && |flags| == |recs|
    requires HeaderResolves(cp, recs[0].header) && HeadersResolve(cp, recs[1..])
    ensures HeadersResolve(cp, recs)
    ensures DeclaredMethods(cp, typeRef, reg, recs, flags) ==
      [Method(DeclaredMember(cp, typeRef, reg, recs[0].header), flags[0])] +
      DeclaredMethods(cp, typeRef, reg, recs[1..], flags[1..])
  {
    DeclaredMembersCons(cp, typeRef, reg, recs);
  }

  /** One step of `ReadMethods` once the first method is known. */
  lemma ReadMethodsStep(s: seq<bv8>, cp: seq<bv32>, typeRef: bv32, reg: Registries, readers: SubReaders,
                        latest: Option<Method>, i: nat, n: nat, m: Method, after: seq<bv8>, ms: seq<Method>,
                        rest: seq<bv8>)
    requires i < n
    requires ReadMethod(s, cp, typeRef, reg, readers) == Ok(Read(m, after))
    requires var latest' := if m.isClassInitializer then Some(m) else latest;
      var more := ReadMethods(after, cp, typeRef, reg, readers, latest', i + 1, n);
      more.Ok? && more.value.value.methods == ms && more.value.rest == rest
    ensures var r := ReadMethods(s, cp, typeRef, reg, readers, latest, i, n);
      r.Ok? && r.value.value.methods == [m] + ms && r.value.rest == rest
  {
  }

  /**
   * A run of method records whose bodies the sub-reader consumes exactly is
   * read back method by method: method `k` is the member header `k` declares,
   * marked as a class initializer exactly when `flags[k]` is set, and the
   * reader goes on after the last body.
   */
  lemma {:induction false} ReadMethodsEncoded(recs: seq<MemberRecord>, flags: seq<bool>, rest: seq<bv8>,
                                              cp: seq<bv32>, typeRef: bv32, reg: Registries, readers: SubReaders,
                                              latest: Option<Method>, i: nat, n: nat)
    requires n == i + |recs|
    requires MethodBodiesConsumed(recs, flags, rest, cp, typeRef, reg, readers)
    ensures |flags| == |recs| && HeadersResolve(cp, recs)
    ensures var r := ReadMethods(EncodeMemberRecords(recs) + rest, cp, typeRef, reg, readers, latest, i, n);
      && r.Ok?
      && r.value.value.methods == DeclaredMethods(cp, typeRef, reg, recs, flags)
      && r.value.rest == rest
    decreases |recs|
  {
    if recs == [] {
      assert EncodeMemberRecords(recs) + rest == rest;
      assert DeclaredMethods(cp, typeRef, reg, recs, flags) == [];
    } else {
      var h := recs[0].header;
      var tail := EncodeMemberRecords(recs[1..]) + rest;
      var s := EncodeMemberRecords(recs) + rest;
      MethodBodiesConsumedHead(recs, flags, rest, cp, typeRef, reg, readers);
      EncodeMemberRecordsCons(recs, rest);
      assert s == EncodeMemberHeader(h) + (recs[0].body + tail);
      ReadMethodEncoded(h, recs[0].body, tail, cp, typeRef, reg, readers, flags[0]);
      var m := Method(DeclaredMember(cp, typeRef, reg, h), flags[0]);
      assert ReadMethod(s, cp, typeRef, reg, readers) == Ok(Read(m, tail));
      var latest' := if m.isClassInitializer then Some(m) else latest;
      ReadMethodsEncoded(recs[1..], flags[1..], rest, cp, typeRef, reg, readers, latest', i + 1, n);
      var more := DeclaredMethods(cp, typeRef, reg, recs[1..], flags[1..]);
      DeclaredMethodsCons(cp, typeRef, reg, recs, flags);
      ReadMethodsStep(s, cp, typeRef, reg, readers, latest, i, n, m, tail, more, rest);
    }
  }

  /**
   * A method table of `count` records reads back as the methods their headers
   * declare, and its class initializer is the last record flagged as one.
   */
  lemma ReadMethodTableEncoded(count: bv16, recs: seq<MemberRecord>, flags: seq<bool>, rest: seq<bv8>,
                               cp: seq<bv32>, typeRef: bv32, reg: Registries, readers: SubReaders)
    requires |recs| == count as nat && MethodBodiesConsumed(recs, flags, rest, cp, typeRef, reg, readers)
    ensures |flags| == |recs| && HeadersResolve(cp, recs)
    ensures var r := ReadMethodTable(U2Bytes(count) + (EncodeMemberRecords(recs) + rest), cp, typeRef, reg, readers);
      && r.Ok?
      && r.value.value.methods == DeclaredMethods(cp, typeRef, reg, recs, flags)
      && r.value.value.classInitializer == LastClassInitializer(DeclaredMethods(cp, typeRef, reg, recs, flags))
      && r.value.rest == rest
  {
    ReadU2Encoded(count, EncodeMemberRecords(recs) + rest);
    ReadMethodsEncoded(recs, flags, rest, cp, typeRef, reg, readers, None, 0, count as nat);
  }
}
