/**
 * The class attributes `readClass` reads after the methods: a u2 count, then
 * records of a u2 name index, a u4 length and a body. The reader knows
 * SourceFile, InnerClasses, Synthetic, EnclosingMethod, Signature and
 * RuntimeVisibleAnnotations (sections 4.7.6 to 4.7.10 and 4.7.16 of the
 * Java Virtual Machine Specification) and skips every other attribute by
 * its declared length. It tells them apart by the interned atom of the
 * name, so two names are the same attribute exactly when their atoms are.
 */
module ClassAttributes {
  import opened Outcomes
  import opened ByteInput
  import opened CpCodec
  import opened PoolAccess
  import opened Collaborators
  import opened ClassModifiers

  // ------------------------------------------------------------- names

  /** The names the reader recognises, as interned by the class loader. */
  const SOURCE_FILE: string := "SourceFile"
  const INNER_CLASSES: string := "InnerClasses"
  const SYNTHETIC: string := "Synthetic"
  const ENCLOSING_METHOD: string := "EnclosingMethod"
  const SIGNATURE: string := "Signature"
  const RUNTIME_VISIBLE_ANNOTATIONS: string := "RuntimeVisibleAnnotations"

  /** The atom of one of the recognised names. */
  function NameAtom(reg: Registries, name: string): bv32
    requires name in {SOURCE_FILE, INNER_CLASSES, SYNTHETIC, ENCLOSING_METHOD, SIGNATURE, RUNTIME_VISIBLE_ANNOTATIONS}
  {
    reg.atom(Ascii(name))
  }

  /** The interning service gives the six recognised names six different atoms. */
  predicate DistinctNames(reg: Registries) {
    var atoms := [NameAtom(reg, SOURCE_FILE), NameAtom(reg, INNER_CLASSES), NameAtom(reg, SYNTHETIC),
                  NameAtom(reg, ENCLOSING_METHOD), NameAtom(reg, SIGNATURE), NameAtom(reg, RUNTIME_VISIBLE_ANNOTATIONS)];
    forall i, j | 0 <= i < j < |atoms| :: atoms[i] != atoms[j]
  }

  /** An attribute name the reader does not recognise. */
  predicate Unrecognised(reg: Registries, name: bv32) {
    && name != NameAtom(reg, SOURCE_FILE) && name != NameAtom(reg, INNER_CLASSES)
    && name != NameAtom(reg, SYNTHETIC) && name != NameAtom(reg, ENCLOSING_METHOD)
    && name != NameAtom(reg, SIGNATURE) && name != NameAtom(reg, RUNTIME_VISIBLE_ANNOTATIONS)
  }

  // ------------------------------------------------------------- state

  /** What the attributes contribute to the class; `None` is a null field. */
  datatype Attributes = Attributes(
    modifiers: bv16,
    declaredClasses: Option<seq<Option<bv32>>>,
    declaringClass: Option<bv32>,
    enclosingClass: Option<bv32>,
    enclosingMethod: Option<bv32>,
    sourceName: Option<bv32>,
    signature: Option<bv32>,
    annotations: Option<bv32>)

  /** The state before the first attribute: the modifiers of the class and nothing else. */
  function NoAttributes(modifiers: bv16): Attributes {
    Attributes(modifiers, None, None, None, None, None, None, None)
  }

  /** The access level is the only modifier an attribute can take away. */
  predicate KeepsModifiers(before: Attributes, after: Attributes) {
    NonAccessBits(before.modifiers) & after.modifiers == NonAccessBits(before.modifiers)
  }

  lemma KeepsModifiersTransitive(a: Attributes, b: Attributes, c: Attributes)
    requires KeepsModifiers(a, b) && KeepsModifiers(b, c)
    ensures KeepsModifiers(a, c)
  {
    assert NonAccessBits(a.modifiers) & NonAccessBits(b.modifiers) == NonAccessBits(a.modifiers);
  }


  lemma KeepsModifiersReflexive(a: Attributes, b: Attributes)
    requires b.modifiers == a.modifiers
    ensures KeepsModifiers(a, b)
  {
  }

  lemma SyntheticKeepsModifiers(a: Attributes, b: Attributes)
    requires b.modifiers == a.modifiers | ACC_SYNTHETIC
    ensures KeepsModifiers(a, b)
  {
  }

  // ----------------------------------------------------- InnerClasses

  /** One record of the InnerClasses attribute: four u2 fields. */
  datatype InnerRecord = InnerRecord(inner: bv16, outer: bv16, innerName: bv16, flags: bv16)

  /** The record names a named member class declared by the class at `myIndex`. */
  predicate DeclaresMember(rec: InnerRecord, myIndex: bv16) {
    rec.inner != 0 && rec.outer == myIndex && rec.innerName != 0
  }

  /** The record describes the class at `myIndex` itself. */
  predicate DescribesSelf(rec: InnerRecord, myIndex: bv16) {
    rec.inner == myIndex
  }

  /** The record describes the class itself as a member of an outer class. */
  predicate NamesOuter(rec: InnerRecord, myIndex: bv16) {
    DescribesSelf(rec, myIndex) && rec.outer != 0
  }

  /** Every type reference the record makes the reader look up reads a CLASS slot. */
  predicate InnerRecordResolves(cp: seq<bv32>, myIndex: bv16, rec: InnerRecord) {
    && (DeclaresMember(rec, myIndex) ==> HasTag(cp, rec.inner as int, CP_CLASS))
    && (NamesOuter(rec, myIndex) ==> HasTag(cp, rec.outer as int, CP_CLASS))
  }

  function ReadInnerRecord(s: seq<bv8>): (r: Result<Read<InnerRecord>>)
    ensures r.Ok? <==> |s| >= 8
    ensures r.Ok? ==> |r.value.rest| == |s| - 8
    ensures r.Err? ==> r.error == EndOfInput
  {
    var inner :- ReadU2(s);
    var outer :- ReadU2(inner.rest);
    var innerName :- ReadU2(outer.rest);
    var flags :- ReadU2(innerName.rest);
    Ok(Read(InnerRecord(inner.value, outer.value, innerName.value, flags.value), flags.rest))
  }

  function EncodeInnerRecord(rec: InnerRecord): seq<bv8> {
    U2Bytes(rec.inner) + U2Bytes(rec.outer) + U2Bytes(rec.innerName) + U2Bytes(rec.flags)
  }

  lemma EncodeInnerRecordFields(rec: InnerRecord, rest: seq<bv8>)
    ensures EncodeInnerRecord(rec) + rest ==
      U2Bytes(rec.inner) + (U2Bytes(rec.outer) + (U2Bytes(rec.innerName) + (U2Bytes(rec.flags) + rest)))
  {
  }

  lemma ReadInnerRecordEncoded(rec: InnerRecord, rest: seq<bv8>)
    ensures ReadInnerRecord(EncodeInnerRecord(rec) + rest) == Ok(Read(rec, rest))
  {
    var tail3 := U2Bytes(rec.flags) + rest;
    var tail2 := U2Bytes(rec.innerName) + tail3;
    var tail1 := U2Bytes(rec.outer) + tail2;
    EncodeInnerRecordFields(rec, rest);
    ReadU2Encoded(rec.inner, tail1);
    ReadU2Encoded(rec.outer, tail2);
    ReadU2Encoded(rec.innerName, tail3);
    ReadU2Encoded(rec.flags, rest);
  }

  /** A record naming a member class of this class fills slot `j` of the declared classes. */
  function DeclareMember(cp: seq<bv32>, myIndex: bv16, declared: seq<Option<bv32>>, j: nat, rec: InnerRecord)
    : (r: Result<seq<Option<bv32>>>)
    requires j < |declared|
    ensures r.Ok? <==> (DeclaresMember(rec, myIndex) ==> HasTag(cp, rec.inner as int, CP_CLASS))
    ensures r.Ok? ==> |r.value| == |declared|
  {
    if DeclaresMember(rec, myIndex) then
      var t :- TypeRefAt(cp, rec.inner as int);
      Ok(declared[j := t])
    else
      Ok(declared)
  }

  /**
   * A record describing this class sets the declaring class (and the
   * enclosing class, unless one is already known) from its outer index and
   * merges its flags into the modifiers.
   */
  function ApplySelfRecord(cp: seq<bv32>, at: Attributes, rec: InnerRecord): (r: Result<Attributes>)
    ensures r.Ok? <==> (rec.outer != 0 ==> HasTag(cp, rec.outer as int, CP_CLASS))
    ensures r.Ok? ==> r.value.declaredClasses == at.declaredClasses
  {
    var at' :-
      if rec.outer != 0 then
        var d :- TypeRefAt(cp, rec.outer as int);
        Ok(at.(declaringClass := d, enclosingClass := if at.enclosingClass.None? then d else at.enclosingClass))
      else
        Ok(at);
    Ok(at'.(modifiers := MergeInnerFlags(at'.modifiers, rec.flags)))
  }

  /** One record applied to the state, with slot `j` of the declared classes its own. */
  function ApplyInnerRecord(cp: seq<bv32>, myIndex: bv16, at: Attributes, j: nat, rec: InnerRecord): (r: Result<Attributes>)
    requires at.declaredClasses.Some? && j < |at.declaredClasses.value|
    ensures r.Ok? <==> InnerRecordResolves(cp, myIndex, rec)
    ensures r.Ok? ==> r.value.declaredClasses.Some? && |r.value.declaredClasses.value| == |at.declaredClasses.value|
  {
    var declared :- DeclareMember(cp, myIndex, at.declaredClasses.value, j, rec);
    var at1 := at.(declaredClasses := Some(declared));
    if DescribesSelf(rec, myIndex) then ApplySelfRecord(cp, at1, rec) else Ok(at1)
  }

  /**
   * A record that
   * describes this class and names an outer class sets the declaring and
   * enclosing class to that outer class (keeping an enclosing class already
   * known) and merges the record's flags.
   */
  lemma SelfRecordWithOuter(cp: seq<bv32>, at: Attributes, rec: InnerRecord)
    requires rec.outer != 0 && HasTag(cp, rec.outer as int, CP_CLASS)
    ensures ApplySelfRecord(cp, at, rec).Ok?
    ensures var r := ApplySelfRecord(cp, at, rec).value;
      && r.declaringClass == GetTypeRef(cp, rec.outer as nat) && r.declaringClass.Some?
      && r.enclosingClass == (if at.enclosingClass.None? then r.declaringClass else at.enclosingClass)
      && r.modifiers == MergeInnerFlags(at.modifiers, rec.flags)
  {
  }

  /** Applying a record loses at most the access level. */
  lemma ApplyKeepsModifiers(cp: seq<bv32>, myIndex: bv16, at: Attributes, j: nat, rec: InnerRecord)
    requires at.declaredClasses.Some? && j < |at.declaredClasses.value|
    requires ApplyInnerRecord(cp, myIndex, at, j, rec).Ok?
    ensures KeepsModifiers(at, ApplyInnerRecord(cp, myIndex, at, j, rec).value)
  {
    if DescribesSelf(rec, myIndex) {
      MergeKeepsNonAccess(at.modifiers, rec.flags);
    }
  }

  /** Records `j` up to `n` of an InnerClasses attribute. */
  function InnerRecords(s: seq<bv8>, cp: seq<bv32>, myIndex: bv16, at: Attributes, j: nat, n: nat): (r: Result<Read<Attributes>>)
    requires at.declaredClasses.Some? && |at.declaredClasses.value| == n && j <= n
    decreases n - j
    ensures r.Ok? ==> r.value.value.declaredClasses.Some? && |r.value.value.declaredClasses.value| == n
    ensures r.Ok? ==> |r.value.rest| == |s| - 8 * (n - j)
    ensures r.Ok? ==> KeepsModifiers(at, r.value.value)
  {
    if j == n then
      KeepsModifiersReflexive(at, at);
      Ok(Read(at, s))
    else
      var rec :- ReadInnerRecord(s);
      var at' :- ApplyInnerRecord(cp, myIndex, at, j, rec.value);
      var r :- InnerRecords(rec.rest, cp, myIndex, at', j + 1, n);
      ApplyKeepsModifiers(cp, myIndex, at, j, rec.value);
      KeepsModifiersTransitive(at, at', r.value);
      Ok(r)
  }

  /** The state an InnerClasses attribute of `n` records starts from: `n` nulls. */
  function StartInnerClasses(at: Attributes, n: nat): (at0: Attributes)
    ensures at0.declaredClasses.Some? && |at0.declaredClasses.value| == n
    ensures forall k | 0 <= k < n :: at0.declaredClasses.value[k] == None
    ensures at0.modifiers == at.modifiers
  {
    at.(declaredClasses := Some(seq(n, _ => None)))
  }

  /** The body of an InnerClasses attribute: the record count, then the records. */
  function ReadInnerClasses(s: seq<bv8>, cp: seq<bv32>, myIndex: bv16, at: Attributes): (r: Result<Read<Attributes>>)
    ensures r.Ok? ==> r.value.value.declaredClasses.Some?
    ensures r.Ok? ==> KeepsModifiers(at, r.value.value)
    ensures r.Ok? ==> |r.value.rest| <= |s| - 2
  {
    var count :- ReadU2(s);
    InnerRecords(count.rest, cp, myIndex, StartInnerClasses(at, count.value as nat), 0, count.value as nat)
  }

  // ----------------------------------- what the InnerClasses records mean

  predicate InnerRecordsResolve(cp: seq<bv32>, myIndex: bv16, recs: seq<InnerRecord>) {
    forall k | 0 <= k < |recs| :: InnerRecordResolves(cp, myIndex, recs[k])
  }

  /** The member class a record declares, or null. */
  function DeclaredClass(cp: seq<bv32>, myIndex: bv16, rec: InnerRecord): Option<bv32>
    requires InnerRecordResolves(cp, myIndex, rec)
  {
    if DeclaresMember(rec, myIndex) then GetTypeRef(cp, rec.inner as nat) else None
  }

  /** The modifiers after merging, in order, the flags of every record that describes the class. */
  function MergedModifiers(modifiers: bv16, myIndex: bv16, recs: seq<InnerRecord>): bv16
    decreases recs
  {
    if recs == [] then modifiers
    else
      var m := if DescribesSelf(recs[0], myIndex) then MergeInnerFlags(modifiers, recs[0].flags) else modifiers;
      MergedModifiers(m, myIndex, recs[1..])
  }

  function EncodeInnerRecords(recs: seq<InnerRecord>): seq<bv8> {
    if recs == [] then [] else EncodeInnerRecord(recs[0]) + EncodeInnerRecords(recs[1..])
  }

  /** The reader applies the first of a run of records and goes on after it. */
  lemma InnerRecordsStep(s: seq<bv8>, cp: seq<bv32>, myIndex: bv16, at: Attributes, j: nat, n: nat,
                         rec: InnerRecord, after: seq<bv8>)
    requires at.declaredClasses.Some? && |at.declaredClasses.value| == n && j < n
    requires ReadInnerRecord(s) == Ok(Read(rec, after))
    requires ApplyInnerRecord(cp, myIndex, at, j, rec).Ok?
    ensures InnerRecords(s, cp, myIndex, at, j, n) ==
      InnerRecords(after, cp, myIndex, ApplyInnerRecord(cp, myIndex, at, j, rec).value, j + 1, n)
  {
  }

  /** A record whose references resolve puts its declared class in slot `j` and merges its flags if it describes the class. */
  lemma ApplyResolvingRecord(cp: seq<bv32>, myIndex: bv16, at: Attributes, j: nat, rec: InnerRecord)
    requires at.declaredClasses.Some? && j < |at.declaredClasses.value|
    requires InnerRecordResolves(cp, myIndex, rec) && at.declaredClasses.value[j] == None
    ensures ApplyInnerRecord(cp, myIndex, at, j, rec).Ok?
    ensures var r := ApplyInnerRecord(cp, myIndex, at, j, rec).value;
      && r.declaredClasses == Some(at.declaredClasses.value[j := DeclaredClass(cp, myIndex, rec)])
      && r.modifiers == (if DescribesSelf(rec, myIndex) then MergeInnerFlags(at.modifiers, rec.flags) else at.modifiers)
  {
    if !DeclaresMember(rec, myIndex) {
      assert at.declaredClasses.value[j := None] == at.declaredClasses.value;
    }
  }

  /** Splitting off the first record of an encoded run. */
  lemma EncodeInnerRecordsFrom(recs: seq<InnerRecord>, j: nat, rest: seq<bv8>)
    requires j < |recs|
    ensures EncodeInnerRecords(recs[j..]) + rest == EncodeInnerRecord(recs[j]) + (EncodeInnerRecords(recs[j + 1..]) + rest)
  {
    assert recs[j..][1..] == recs[j + 1..];
  }

  /**
   * Reading the encoding of records `j` onwards: slot `k` of the declared
   * classes ends up holding the member class record `k` declares (or null),
   * and the modifiers have the flags of every record describing the class
   * merged in, in order.
   */
  lemma {:induction false} InnerRecordsEncoded(recs: seq<InnerRecord>, rest: seq<bv8>, cp: seq<bv32>,
                                               myIndex: bv16, at: Attributes, j: nat)
    requires j <= |recs| && InnerRecordsResolve(cp, myIndex, recs)
    requires at.declaredClasses.Some? && |at.declaredClasses.value| == |recs|
    requires forall k | j <= k < |recs| :: at.declaredClasses.value[k] == None
    ensures InnerRecords(EncodeInnerRecords(recs[j..]) + rest, cp, myIndex, at, j, |recs|).Ok?
    ensures var r := InnerRecords(EncodeInnerRecords(recs[j..]) + rest, cp, myIndex, at, j, |recs|).value;
      && r.rest == rest
      && r.value.modifiers == MergedModifiers(at.modifiers, myIndex, recs[j..])
      && (forall k | 0 <= k < j :: r.value.declaredClasses.value[k] == at.declaredClasses.value[k])
      && (forall k | j <= k < |recs| :: r.value.declaredClasses.value[k] == DeclaredClass(cp, myIndex, recs[k]))
    decreases |recs| - j
  {
    var n := |recs|;
    if j == n {
      assert recs[j..] == [];
    } else {
      var rec := recs[j];
      var after := EncodeInnerRecords(recs[j + 1..]) + rest;
      EncodeInnerRecordsFrom(recs, j, rest);
      ReadInnerRecordEncoded(rec, after);
      assert InnerRecordResolves(cp, myIndex, rec);
      ApplyResolvingRecord(cp, myIndex, at, j, rec);
      var at' := ApplyInnerRecord(cp, myIndex, at, j, rec).value;
      InnerRecordsStep(EncodeInnerRecords(recs[j..]) + rest, cp, myIndex, at, j, n, rec, after);
      InnerRecordsEncoded(recs, rest, cp, myIndex, at', j + 1);
      assert recs[j..][1..] == recs[j + 1..];
    }
  }

  /**
   * A whole InnerClasses attribute whose references resolve: the declared
   * classes hold, record by record, the member class the record declares or
   * null, and the modifiers have the flags of every record describing the
   * class merged in, in order.
   */
  lemma ReadInnerClassesEncoded(count: bv16, recs: seq<InnerRecord>, rest: seq<bv8>, cp: seq<bv32>,
                                myIndex: bv16, at: Attributes)
    requires |recs| == count as nat && InnerRecordsResolve(cp, myIndex, recs)
    ensures ReadInnerClasses(U2Bytes(count) + (EncodeInnerRecords(recs) + rest), cp, myIndex, at).Ok?
    ensures var r := ReadInnerClasses(U2Bytes(count) + (EncodeInnerRecords(recs) + rest), cp, myIndex, at).value;
      && r.rest == rest
      && r.value.modifiers == MergedModifiers(at.modifiers, myIndex, recs)
      && |r.value.declaredClasses.value| == |recs|
      && (forall k | 0 <= k < |recs| :: r.value.declaredClasses.value[k] == DeclaredClass(cp, myIndex, recs[k]))
  {
    ReadInnerClassesStart(count, EncodeInnerRecords(recs) + rest, cp, myIndex, at);
    assert recs[0..] == recs;
    InnerRecordsEncoded(recs, rest, cp, myIndex, StartInnerClasses(at, |recs|), 0);
  }

  lemma ReadInnerClassesStart(count: bv16, after: seq<bv8>, cp: seq<bv32>, myIndex: bv16, at: Attributes)
    ensures ReadInnerClasses(U2Bytes(count) + after, cp, myIndex, at) ==
      InnerRecords(after, cp, myIndex, StartInnerClasses(at, count as nat), 0, count as nat)
  {
    ReadU2Encoded(count, after);
  }

  // -------------------------------------------------- the other attributes

  /** A u2 index of a UTF slot, as SourceFile and Signature hold: the atom of that slot. */
  function ReadUtfIndex(s: seq<bv8>, cp: seq<bv32>): (r: Result<Read<bv32>>)
    ensures r.Ok? ==> |r.value.rest| == |s| - 2
    ensures |s| >= 2 ==> (r.Ok? <==> HasTag(cp, Join16(s[0], s[1]) as int, CP_UTF))
    ensures r.Ok? ==> r.value.value == GetUtf(cp, Join16(s[0], s[1]) as nat)
  {
    var index :- ReadU2(s);
    var atom :- UtfAt(cp, index.value as int);
    Ok(Read(atom, index.rest))
  }

  /**
   * EnclosingMethod: the enclosing class, then the name-and-type entry of the
   * enclosing method, or 0 when there is none. The name and the descriptor
   * are the two halves of that entry's word, taken apart with a shift and a
   * mask rather than with the temp-pair accessors.
   */
  function ReadEnclosingMethod(s: seq<bv8>, cp: seq<bv32>, reg: Registries, at: Attributes): (r: Result<Read<Attributes>>)
    ensures r.Ok? ==> |r.value.rest| == |s| - 4
    ensures r.Ok? ==> r.value.value.(enclosingClass := at.enclosingClass, enclosingMethod := at.enclosingMethod) == at
  {
    var classIndex :- ReadU2(s);
    var enclosing :- TypeRefAt(cp, classIndex.value as int);
    var methodIndex :- ReadU2(classIndex.rest);
    var at' := at.(enclosingClass := enclosing);
    if methodIndex.value == 0 then
      Ok(Read(at', methodIndex.rest))
    else
      var m := methodIndex.value as int;
      if m >= |cp| then
        Err(IndexOutOfRange(m))
      else
        var name :- UtfAt(cp, HighShort(cp[m]) as int);
        var descriptor :- UtfAt(cp, LowShort(cp[m]) as int);
        Ok(Read(at'.(enclosingMethod := Some(reg.member(enclosing, name, descriptor))), methodIndex.rest))
  }

  /** The name-and-type entry at `m` names two UTF slots. */
  predicate NameAndTypeResolves(cp: seq<bv32>, m: int) {
    0 <= m < |cp|
    && HasTag(cp, UnpackTempCPIndex1(cp[m]) as int, CP_UTF)
    && HasTag(cp, UnpackTempCPIndex2(cp[m]) as int, CP_UTF)
  }

  /** The member a resolving name-and-type entry at `m` names in class `enclosing`. */
  function NamedMember(cp: seq<bv32>, reg: Registries, enclosing: Option<bv32>, m: int): bv32
    requires NameAndTypeResolves(cp, m)
  {
    reg.member(enclosing, GetUtf(cp, UnpackTempCPIndex1(cp[m]) as nat), GetUtf(cp, UnpackTempCPIndex2(cp[m]) as nat))
  }

  /**
   * The shift and the mask read the same two indices the temp-pair accessors
   * do, so the enclosing method is the member named by the name-and-type
   * entry's name and descriptor in the enclosing class.
   */
  lemma ReadEnclosingMethodEncoded(classIndex: bv16, methodIndex: bv16, rest: seq<bv8>, cp: seq<bv32>,
                                   reg: Registries, at: Attributes)
    requires classIndex == 0 || HasTag(cp, classIndex as int, CP_CLASS)
    requires methodIndex != 0 && NameAndTypeResolves(cp, methodIndex as int)
    ensures ReadEnclosingMethod(U2Bytes(classIndex) + (U2Bytes(methodIndex) + rest), cp, reg, at) ==
      Ok(Read(at.(enclosingClass := GetTypeRef(cp, classIndex as nat),
                  enclosingMethod := Some(NamedMember(cp, reg, GetTypeRef(cp, classIndex as nat), methodIndex as int))),
              rest))
  {
    ReadU2Encoded(classIndex, U2Bytes(methodIndex) + rest);
    ReadU2Encoded(methodIndex, rest);
    HighShortIsIndex1(cp[methodIndex as int]);
    LowShortIsIndex2(cp[methodIndex as int]);
  }

  /** Without an enclosing method, the attribute sets the enclosing class alone. */
  lemma ReadEnclosingClassOnly(classIndex: bv16, methodIndex: bv16, rest: seq<bv8>, cp: seq<bv32>,
                                reg: Registries, at: Attributes)
    requires classIndex == 0 || HasTag(cp, classIndex as int, CP_CLASS)
    requires methodIndex == 0
    ensures ReadEnclosingMethod(U2Bytes(classIndex) + (U2Bytes(methodIndex) + rest), cp, reg, at) ==
      Ok(Read(at.(enclosingClass := GetTypeRef(cp, classIndex as nat)), rest))
  {
    ReadU2Encoded(classIndex, U2Bytes(methodIndex) + rest);
    ReadU2Encoded(methodIndex, rest);
  }

  /** RuntimeVisibleAnnotations: the annotation reader consumes the body and gives the annotation set. */
  function ReadAnnotations(s: seq<bv8>, cp: seq<bv32>, readers: SubReaders, at: Attributes): (r: Result<Read<Attributes>>)
    ensures r.Ok? <==> readers.annotationReader(cp, s).Some? && readers.annotationReader(cp, s).value.consumed <= |s|
    ensures r.Ok? ==> |r.value.rest| <= |s|
    ensures r.Ok? ==> r.value.value.annotations.Some? && r.value.value.(annotations := at.annotations) == at
  {
    var a := readers.annotationReader(cp, s);
    var rest :- Advance(s, if a.Some? then Some(a.value.consumed) else None);
    Ok(Read(at.(annotations := Some(a.value.annotations)), rest))
  }

  /** `skipBytes(length)` must skip exactly the declared length, which the reader reads as a signed int. */
  function SkipAttribute(s: seq<bv8>, length: int): (r: Result<seq<bv8>>)
    ensures r.Ok? <==> 0 <= length <= |s|
    ensures r.Ok? ==> s == s[..length] + r.value
    ensures r.Err? ==> r.error == ShortSkip
  {
    var skipped := SkipBytes(s, length);
    if skipped != length then Err(ShortSkip) else Ok(s[skipped..])
  }

  /** The body of an attribute, chosen by the atom of its name. */
  function AttributeBody(s: seq<bv8>, cp: seq<bv32>, myIndex: bv16, reg: Registries, readers: SubReaders,
                         at: Attributes, name: bv32, length: int): (r: Result<Read<Attributes>>)
    ensures r.Ok? ==> |r.value.rest| <= |s|
  {
    if name == NameAtom(reg, SOURCE_FILE) && length == 2 then
      var source :- ReadUtfIndex(s, cp);
      Ok(Read(at.(sourceName := Some(source.value)), source.rest))
    else if name == NameAtom(reg, INNER_CLASSES) then
      ReadInnerClasses(s, cp, myIndex, at)
    else if name == NameAtom(reg, SYNTHETIC) then
      Ok(Read(at.(modifiers := at.modifiers | ACC_SYNTHETIC), s))
    else if name == NameAtom(reg, ENCLOSING_METHOD) then
      ReadEnclosingMethod(s, cp, reg, at)
    else if name == NameAtom(reg, SIGNATURE) then
      var signature :- ReadUtfIndex(s, cp);
      Ok(Read(at.(signature := Some(signature.value)), signature.rest))
    else if name == NameAtom(reg, RUNTIME_VISIBLE_ANNOTATIONS) then
      ReadAnnotations(s, cp, readers, at)
    else
      var rest :- SkipAttribute(s, length);
      Ok(Read(at, rest))
  }

  /** One attribute: its name index, its u4 length, its body. */
  function ReadAttribute(s: seq<bv8>, cp: seq<bv32>, myIndex: bv16, reg: Registries, readers: SubReaders,
                         at: Attributes): (r: Result<Read<Attributes>>)
    ensures r.Ok? ==> |r.value.rest| <= |s| - 6
  {
    var nameIndex :- ReadU2(s);
    var name :- UtfAt(cp, nameIndex.value as int);
    var length :- ReadU4(nameIndex.rest);
    AttributeBody(length.rest, cp, myIndex, reg, readers, at, name, SignedValue(length.value))
  }

  /** Attributes `i` up to `n`. */
  function ReadAttributes(s: seq<bv8>, cp: seq<bv32>, myIndex: bv16, reg: Registries, readers: SubReaders,
                          at: Attributes, i: nat, n: nat): (r: Result<Read<Attributes>>)
    requires i <= n
    decreases n - i
    ensures r.Ok? ==> |r.value.rest| <= |s| - 6 * (n - i)
  {
    if i == n then
      Ok(Read(at, s))
    else
      var a :- ReadAttribute(s, cp, myIndex, reg, readers, at);
      ReadAttributes(a.rest, cp, myIndex, reg, readers, a.value, i + 1, n)
  }

  /** The attribute table of a class: the u2 count, then the attributes. */
  function ReadAttributeTable(s: seq<bv8>, cp: seq<bv32>, myIndex: bv16, reg: Registries, readers: SubReaders,
                              at: Attributes): (r: Result<Read<Attributes>>)
    ensures r.Ok? ==> |r.value.rest| <= |s| - 2
  {
    var count :- ReadU2(s);
    ReadAttributes(count.rest, cp, myIndex, reg, readers, at, 0, count.value as nat)
  }

  // ------------------------------------------------------- dispatch lemmas

  /** The encoded header of an attribute: its name index and its u4 length. */
  function EncodeAttributeHeader(nameIndex: bv16, length: bv32): seq<bv8> {
    U2Bytes(nameIndex) + U4Bytes(length)
  }

  /**
   * An attribute's header is read as its name's atom and its length read as a
   * signed int, and the body is dispatched on the bytes right after it.
   */
  lemma ReadAttributeEncoded(nameIndex: bv16, length: bv32, body: seq<bv8>, cp: seq<bv32>, myIndex: bv16,
                             reg: Registries, readers: SubReaders, at: Attributes)
    requires HasTag(cp, nameIndex as int, CP_UTF)
    ensures ReadAttribute(EncodeAttributeHeader(nameIndex, length) + body, cp, myIndex, reg, readers, at) ==
      AttributeBody(body, cp, myIndex, reg, readers, at, GetUtf(cp, nameIndex as nat), SignedValue(length))
  {
    assert EncodeAttributeHeader(nameIndex, length) + body == U2Bytes(nameIndex) + (U4Bytes(length) + body);
    ReadU2Encoded(nameIndex, U4Bytes(length) + body);
    ReadU4Encoded(length, body);
  }

  /**
   * An attribute the reader does not recognise is skipped: it succeeds exactly
   * when its declared length is between zero and the bytes that remain, and
   * then goes on after that many bytes with nothing changed; otherwise the
   * skip comes up short.
   */
  lemma UnknownAttributeSkipped(s: seq<bv8>, cp: seq<bv32>, myIndex: bv16, reg: Registries, readers: SubReaders,
                                at: Attributes, name: bv32, length: int)
    requires Unrecognised(reg, name)
    ensures AttributeBody(s, cp, myIndex, reg, readers, at, name, length) ==
      if 0 <= length <= |s| then Ok(Read(at, s[length..])) else Err(ShortSkip)
  {
  }

  /** A SourceFile attribute whose length is not 2 is skipped like an unknown one. */
  lemma OddSourceFileSkipped(s: seq<bv8>, cp: seq<bv32>, myIndex: bv16, reg: Registries, readers: SubReaders,
                             at: Attributes, length: int)
    requires DistinctNames(reg) && length != 2
    ensures AttributeBody(s, cp, myIndex, reg, readers, at, NameAtom(reg, SOURCE_FILE), length) ==
      if 0 <= length <= |s| then Ok(Read(at, s[length..])) else Err(ShortSkip)
  {
    var atoms := [NameAtom(reg, SOURCE_FILE), NameAtom(reg, INNER_CLASSES), NameAtom(reg, SYNTHETIC),
                  NameAtom(reg, ENCLOSING_METHOD), NameAtom(reg, SIGNATURE), NameAtom(reg, RUNTIME_VISIBLE_ANNOTATIONS)];
    assert atoms[0] != atoms[1] && atoms[0] != atoms[2] && atoms[0] != atoms[3];
    assert atoms[0] != atoms[4] && atoms[0] != atoms[5];
  }

  /** A SourceFile attribute of length 2 names its source file by a UTF slot. */
  lemma SourceFileEncoded(index: bv16, rest: seq<bv8>, cp: seq<bv32>, myIndex: bv16, reg: Registries,
                          readers: SubReaders, at: Attributes)
    requires HasTag(cp, index as int, CP_UTF)
    ensures AttributeBody(U2Bytes(index) + rest, cp, myIndex, reg, readers, at, NameAtom(reg, SOURCE_FILE), 2) ==
      Ok(Read(at.(sourceName := Some(GetUtf(cp, index as nat))), rest))
  {
    ReadU2Encoded(index, rest);
  }

  /**
   * A Signature attribute names the signature by a UTF slot, whatever length
   * it declares: the reader takes exactly two bytes.
   */
  lemma SignatureEncoded(index: bv16, rest: seq<bv8>, cp: seq<bv32>, myIndex: bv16, reg: Registries,
                         readers: SubReaders, at: Attributes, length: int)
    requires DistinctNames(reg) && HasTag(cp, index as int, CP_UTF)
    ensures AttributeBody(U2Bytes(index) + rest, cp, myIndex, reg, readers, at, NameAtom(reg, SIGNATURE), length) ==
      Ok(Read(at.(signature := Some(GetUtf(cp, index as nat))), rest))
  {
    var atoms := [NameAtom(reg, SOURCE_FILE), NameAtom(reg, INNER_CLASSES), NameAtom(reg, SYNTHETIC),
                  NameAtom(reg, ENCLOSING_METHOD), NameAtom(reg, SIGNATURE), NameAtom(reg, RUNTIME_VISIBLE_ANNOTATIONS)];
    assert atoms[4] != atoms[0] && atoms[4] != atoms[1] && atoms[4] != atoms[2] && atoms[4] != atoms[3];
    ReadU2Encoded(index, rest);
  }

  /** A Synthetic attribute sets ACC_SYNTHETIC and reads nothing, whatever length it declares. */
  lemma SyntheticSetsFlag(s: seq<bv8>, cp: seq<bv32>, myIndex: bv16, reg: Registries, readers: SubReaders,
                          at: Attributes, length: int)
    requires DistinctNames(reg)
    ensures AttributeBody(s, cp, myIndex, reg, readers, at, NameAtom(reg, SYNTHETIC), length) ==
      Ok(Read(at.(modifiers := at.modifiers | ACC_SYNTHETIC), s))
  {
    var atoms := [NameAtom(reg, SOURCE_FILE), NameAtom(reg, INNER_CLASSES), NameAtom(reg, SYNTHETIC),
                  NameAtom(reg, ENCLOSING_METHOD), NameAtom(reg, SIGNATURE), NameAtom(reg, RUNTIME_VISIBLE_ANNOTATIONS)];
    assert atoms[2] != atoms[0] && atoms[2] != atoms[1];
  }

  /**
   * Only InnerClasses and Synthetic touch the modifiers: InnerClasses as its
   * records say, Synthetic by setting ACC_SYNTHETIC.
   */
  lemma AttributeBodyModifiers(s: seq<bv8>, cp: seq<bv32>, myIndex: bv16, reg: Registries, readers: SubReaders,
                               at: Attributes, name: bv32, length: int)
    requires AttributeBody(s, cp, myIndex, reg, readers, at, name, length).Ok?
    ensures var after := AttributeBody(s, cp, myIndex, reg, readers, at, name, length).value.value;
      || after.modifiers == at.modifiers
      || (name == NameAtom(reg, SYNTHETIC) && after.modifiers == at.modifiers | ACC_SYNTHETIC)
      || (name == NameAtom(reg, INNER_CLASSES) && after == ReadInnerClasses(s, cp, myIndex, at).value.value)
  {
  }

  /** No attribute takes away a modifier other than the access level. */
  lemma AttributeBodyKeepsModifiers(s: seq<bv8>, cp: seq<bv32>, myIndex: bv16, reg: Registries, readers: SubReaders,
                                    at: Attributes, name: bv32, length: int)
    requires AttributeBody(s, cp, myIndex, reg, readers, at, name, length).Ok?
    ensures KeepsModifiers(at, AttributeBody(s, cp, myIndex, reg, readers, at, name, length).value.value)
  {
    var after := AttributeBody(s, cp, myIndex, reg, readers, at, name, length).value.value;
    AttributeBodyModifiers(s, cp, myIndex, reg, readers, at, name, length);
    if after.modifiers == at.modifiers {
      KeepsModifiersReflexive(at, after);
    } else if name == NameAtom(reg, SYNTHETIC) && after.modifiers == at.modifiers | ACC_SYNTHETIC {
      SyntheticKeepsModifiers(at, after);
    }
  }

  /** One whole attribute keeps every modifier outside the access level. */
  lemma ReadAttributeKeepsModifiers(s: seq<bv8>, cp: seq<bv32>, myIndex: bv16, reg: Registries, readers: SubReaders,
                                    at: Attributes)
    requires ReadAttribute(s, cp, myIndex, reg, readers, at).Ok?
    ensures KeepsModifiers(at, ReadAttribute(s, cp, myIndex, reg, readers, at).value.value)
  {
    var nameIndex := ReadU2(s).value;
    var name := UtfAt(cp, nameIndex.value as int).value;
    var length := ReadU4(nameIndex.rest).value;
    AttributeBodyKeepsModifiers(length.rest, cp, myIndex, reg, readers, at, name, SignedValue(length.value));
  }

  /**
   * However many attributes a class carries, and in whatever order, the
   * modifiers it ends with keep every bit outside the access level that it
   * started with.
   */
  lemma {:induction false} ReadAttributesKeepModifiers(s: seq<bv8>, cp: seq<bv32>, myIndex: bv16, reg: Registries,
                                                       readers: SubReaders, at: Attributes, i: nat, n: nat)
    requires i <= n
    requires ReadAttributes(s, cp, myIndex, reg, readers, at, i, n).Ok?
    ensures KeepsModifiers(at, ReadAttributes(s, cp, myIndex, reg, readers, at, i, n).value.value)
    decreases n - i
  {
    var r := ReadAttributes(s, cp, myIndex, reg, readers, at, i, n).value.value;
    if i == n {
      KeepsModifiersReflexive(at, r);
    } else {
      var a := ReadAttribute(s, cp, myIndex, reg, readers, at).value;
      ReadAttributeKeepsModifiers(s, cp, myIndex, reg, readers, at);
      ReadAttributesKeepModifiers(a.rest, cp, myIndex, reg, readers, a.value, i + 1, n);
      KeepsModifiersTransitive(at, a.value, r);
    }
  }

  /** The whole attribute table keeps every modifier bit outside the access level. */
  lemma ReadAttributeTableKeepsModifiers(s: seq<bv8>, cp: seq<bv32>, myIndex: bv16, reg: Registries,
                                         readers: SubReaders, at: Attributes)
    requires ReadAttributeTable(s, cp, myIndex, reg, readers, at).Ok?
    ensures KeepsModifiers(at, ReadAttributeTable(s, cp, myIndex, reg, readers, at).value.value)
  {
    var count := ReadU2(s).value;
    ReadAttributesKeepModifiers(count.rest, cp, myIndex, reg, readers, at, 0, count.value as nat);
  }
}
