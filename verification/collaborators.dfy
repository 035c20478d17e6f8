/**
 * The external services the reader calls but does not own. Each registry
 * is a find-or-create service; it is modelled as a function, so asking
 * twice with equal arguments yields the same stable id. Each sub-reader
 * consumes its own record from the stream and reports how many bytes it
 * consumed; `None` stands for any failure it raises.
 */
module Collaborators {
  import opened Outcomes

  datatype Registries = Registries(
    /** `Atom.findOrCreateUtf8Atom(bytes).getId()` */
    atom: seq<bv8> -> bv32,
    /** `Statics.findOrCreateIntSizeLiteral(bits)`: a literal offset */
    intLiteral: bv32 -> bv32,
    /** `Statics.findOrCreateLongSizeLiteral(bits)`: a literal offset */
    longLiteral: bv64 -> bv32,
    /** `TypeReference.findOrCreate(loader, atom.descriptorFromClassName()).getId()` for an atom id */
    classType: bv32 -> bv32,
    /** `atom.getStringLiteralOffset()` for an atom id; `None` is a UTFDataFormatException */
    stringLiteral: bv32 -> Option<bv32>,
    /** `MemberReference.findOrCreate(type, name, descriptor).getId()`; a `None` type is a null reference */
    member: (Option<bv32>, bv32, bv32) -> bv32
  )

  datatype SubReaders = SubReaders(
    /** `RVMField.readField(type, pool, memberRef, modifiers, input)`: bytes consumed */
    fieldReader: (bv32, seq<bv32>, bv32, bv16, seq<bv8>) -> Option<nat>,
    /** `RVMMethod.readMethod(type, pool, memberRef, modifiers, input)`: bytes consumed and whether it is the class initializer */
    methodReader: (bv32, seq<bv32>, bv32, bv16, seq<bv8>) -> Option<MethodRecord>,
    /** `AnnotatedElement.readAnnotations(pool, input, loader)`: bytes consumed and the annotation set */
    annotationReader: (seq<bv32>, seq<bv8>) -> Option<AnnotationRecord>
  )

  datatype MethodRecord = MethodRecord(consumed: nat, isClassInitializer: bool)

  datatype AnnotationRecord = AnnotationRecord(consumed: nat, annotations: bv32)

  /**
   * The stream after a sub-reader has consumed its record: a failure of the
   * sub-reader is passed on, and a sub-reader that claims more bytes than
   * remain ran off the end of the stream.
   */
  function Advance(s: seq<bv8>, consumed: Option<nat>): (r: Result<seq<bv8>>)
    ensures r.Ok? <==> consumed.Some? && consumed.value <= |s|
    ensures r.Ok? ==> s == s[..consumed.value] + r.value
    ensures consumed.None? ==> r == Err(SubReaderFailure)
    ensures consumed.Some? && consumed.value > |s| ==> r == Err(EndOfInput)
  {
    match consumed
    case None => Err(SubReaderFailure)
    case Some(k) => if k <= |s| then Ok(s[k..]) else Err(EndOfInput)
  }

  /** The bytes of an ASCII string, as the atoms for fixed names are created from. */
  function Ascii(s: string): (b: seq<bv8>)
    requires forall i | 0 <= i < |s| :: s[i] < 128 as char
    ensures |b| == |s|
  {
    seq(|s|, i requires 0 <= i < |s| => (s[i] as int) as bv8)
  }
}
