/**
 * `readClass`: the whole class file, from the magic number to the last
 * attribute, read into the parts of a class the loader builds. Bytes after
 * the last attribute are not looked at.
 */
module ClassReader {
  import opened Outcomes
  import opened ByteInput
  import opened CpCodec
  import opened PoolAccess
  import opened Collaborators
  import opened ClassHeader
  import opened ClassModifiers
  import opened PoolReader
  import opened PoolResolver
  import opened ClassMembers
  import opened ClassAttributes

  /**
   * The parts of a loaded class. The class's modifiers are those the
   * attributes leave, `attributes.modifiers`; super class and interfaces are
   * type references, not yet resolved to classes.
   */
  datatype ClassInfo = ClassInfo(
    typeRef: bv32,
    constantPool: seq<bv32>,
    superClass: Option<bv32>,
    interfaces: seq<bv32>,
    fields: seq<Member>,
    methods: seq<Method>,
    classInitializer: Option<Method>,
    attributes: Attributes)

  /** The class's declared modifiers and the index of its own CLASS slot. */
  datatype ClassStart = ClassStart(modifiers: bv16, thisIndex: bv16)

  /** The first two bytes after the pool: the class's declared modifiers. */
  function DeclaredModifiers(s: seq<bv8>): bv16
    requires |s| >= 2
  {
    Join16(s[0], s[1])
  }

  /** The next two: the index of the class's own CLASS slot. */
  function ThisIndex(s: seq<bv8>): bv16
    requires |s| >= 4
  {
    Join16(s[2], s[3])
  }

  /**
   * The modifiers and the this-class index, checked against the type the
   * loader asked for: the class is read only when its own CLASS slot names
   * that type.
   */
  function ReadClassStart(s: seq<bv8>, cp: seq<bv32>, typeRef: bv32): (r: Result<Read<ClassStart>>)
    ensures r.Ok? <==>
      |s| >= 4 && ThisIndex(s) != 0 && HasTag(cp, ThisIndex(s) as int, CP_CLASS)
      && GetTypeRef(cp, ThisIndex(s) as nat) == Some(typeRef)
    ensures r.Ok? ==> r.value == Read(ClassStart(DeclaredModifiers(s), ThisIndex(s)), s[4..])
  {
    var modifiers :- ReadU2(s);
    var myIndex :- ReadU2(modifiers.rest);
    assert myIndex.value == ThisIndex(s);
    var found :- CheckIdentity(cp, typeRef, myIndex.value);
    Ok(Read(ClassStart(modifiers.value, myIndex.value), myIndex.rest))
  }

  /**
   * Everything after the constant pool, against the resolved pool `cp`, for
   * the class `typeRef` the loader asked for.
   */
  function ReadClassBody(s: seq<bv8>, cp: seq<bv32>, typeRef: bv32, reg: Registries, readers: SubReaders)
    : (r: Result<ClassInfo>)
    ensures r.Ok? ==> ReadClassStart(s, cp, typeRef).Ok? && |s| >= 14
    ensures r.Ok? ==> r.value.typeRef == typeRef && r.value.constantPool == cp
    ensures r.Ok? ==> r.value.classInitializer == LastClassInitializer(r.value.methods)
    ensures r.Ok? && DeclaredModifiers(s) & ACC_INTERFACE != 0 ==> r.value.superClass.None?
  {
    var start :- ReadClassStart(s, cp, typeRef);
    var superClass :- ReadSuperClass(start.rest, cp, start.value.modifiers);
    var interfaces :- ReadInterfaceTable(superClass.rest, cp);
    var fields :- ReadFieldTable(interfaces.rest, cp, typeRef, reg, readers);
    var methods :- ReadMethodTable(fields.rest, cp, typeRef, reg, readers);
    var attributes :- ReadAttributeTable(methods.rest, cp, start.value.thisIndex, reg, readers,
                                         NoAttributes(start.value.modifiers));
    Ok(ClassInfo(typeRef, cp, superClass.value, interfaces.value, fields.value, methods.value.methods,
                 methods.value.classInitializer, attributes.value))
  }

  /**
   * The attributes can change the class's access level but never take away
   * another modifier the class file declared.
   */
  lemma ReadClassBodyKeepsModifiers(s: seq<bv8>, cp: seq<bv32>, typeRef: bv32, reg: Registries, readers: SubReaders)
    requires ReadClassBody(s, cp, typeRef, reg, readers).Ok?
    ensures KeepsModifiers(NoAttributes(DeclaredModifiers(s)), ReadClassBody(s, cp, typeRef, reg, readers).value.attributes)
  {
    var start := ReadClassStart(s, cp, typeRef).value;
    var superClass := ReadSuperClass(start.rest, cp, start.value.modifiers).value;
    var interfaces := ReadInterfaceTable(superClass.rest, cp).value;
    var fields := ReadFieldTable(interfaces.rest, cp, typeRef, reg, readers).value;
    var methods := ReadMethodTable(fields.rest, cp, typeRef, reg, readers).value;
    ReadAttributeTableKeepsModifiers(methods.rest, cp, start.value.thisIndex, reg, readers, NoAttributes(start.value.modifiers));
  }

  /**
   * The whole class file: the header, the constant pool as pass 1 lays it
   * out, passes 2 and 3 over it, then the rest of the class.
   */
  method ReadClass(s: seq<bv8>, typeRef: bv32, reg: Registries, readers: SubReaders) returns (r: Result<ClassInfo>)
    ensures ReadHeader(s).Err? ==> r == Err(ReadHeader(s).error)
    ensures ReadHeader(s).Ok? && ReadConstantPool(ReadHeader(s).value.rest, reg).Err? ==>
      r == Err(ReadConstantPool(ReadHeader(s).value.rest, reg).error)
    ensures r.Ok? ==> ReadHeader(s).Ok? && ReadConstantPool(ReadHeader(s).value.rest, reg).Ok?
    ensures r.Ok? ==>
      var pool := ReadConstantPool(ReadHeader(s).value.rest, reg).value;
      && r == ReadClassBody(pool.rest, r.value.constantPool, typeRef, reg, readers)
      && ReadClassStart(pool.rest, r.value.constantPool, typeRef).Ok?
      && r.value.classInitializer == LastClassInitializer(r.value.methods)
      && (DeclaredModifiers(pool.rest) & ACC_INTERFACE != 0 ==> r.value.superClass.None?)
    ensures r.Ok? ==>
      var pool := ReadConstantPool(ReadHeader(s).value.rest, reg).value.value;
      && |r.value.constantPool| == |pool.words|
      && (forall j :: 0 <= j < |pool.words| ==> PoolOutcome(pool.words, pool.tags, r.value.constantPool[j], j))
      && (PoolWellFormed(pool.words, pool.tags) ==>
            forall j :: 0 <= j < |pool.words| ==> r.value.constantPool[j] == ResolvedWord(pool.words, pool.tags, reg, j))
  {
    var header :- ReadHeader(s);
    var pool :- ReadConstantPool(header.rest, reg);
    var cp :- ResolvePool(pool.value.words, pool.value.tags, reg);
    r := ReadClassBody(pool.rest, cp, typeRef, reg, readers);
  }
}
