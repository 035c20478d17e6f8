# Class-file reader model

A model of the JikesRVM class-file reader (`ClassFileReader`). It turns
the bytes of a Java class file into the parts of an `RVMClass`. The
model covers:

- the header gate: the magic number, and class-file versions 45.0 to 50.0;
- the three constant-pool passes:
  - pass 1 reads the tagged entries, interns UTF entries and literals, and
    leaves raw indices and temp pairs;
  - pass 2 resolves TYPEREF and STRING entries;
  - pass 3 resolves field and method references;
- the packed 32-bit constant-pool word: a 3-bit tag over a 29-bit payload,
  read back unsigned or sign-extended, and the 16+16 temp pair;
- the accessors over the resolved pool;
- the body of the class: this-class identity, super class, interfaces,
  fields, methods and the class initializer;
- the class attributes: SourceFile, InnerClasses, Synthetic,
  EnclosingMethod, Signature and RuntimeVisibleAnnotations; every other
  attribute is skipped.

The byte stream is a `seq<bv8>`, and every read returns the value with
the bytes after it. Java `int`s are `bv32`, so shifts, masks and sign
extension are the JVM's. Failures are `Result` values naming the error
the reader raises.

The outside services are values passed in:

- the atom, literal, type and member registries are functions, so equal
  requests give equal ids;
- the field, method and annotation sub-readers are functions that report
  the bytes they consume.

Modules:

| module | file | what |
|---|---|---|
| Outcomes | outcomes.dfy | `Option`, `Result` and the error kinds |
| ByteInput | bytes.dfy | big-endian reads of the class-file stream |
| Collaborators | collaborators.dfy | registries and sub-readers |
| CpCodec | codec.dfy | the packed constant-pool word and the temp pair |
| PoolScan | scan.dfy | constant-pool tags and which slots the passes visit |
| PoolAccess | access.dfy | `getTypeRef`, `getUtf`, `getMethodRef`/`getFieldRef`, the literal accessors |
| ClassHeader | header.dfy | magic number and version gate |
| PoolReader | pool_reader.dfy | pass 1 and the layout it leaves |
| PoolResolver | resolver.dfy | passes 2 and 3 |
| ClassModifiers | modifiers.dfy | access flags and the InnerClasses flag merge |
| ClassMembers | members.dfy | identity, super class, interfaces, fields, methods |
| ClassAttributes | attributes.dfy | the class attributes |
| ClassReader | class_reader.dfy | `readClass` |

## Model

| member | source | states |
|---|---|---|
| CpCodec.PackCPEntry | rvm/src/org/jikesrvm/classloader/ClassFileReader.java:375-377 | The packed word's top three bits read back as the tag's low three bits, whatever the value. |
| CpCodec.UnpackCPType | rvm/src/org/jikesrvm/classloader/ClassFileReader.java:380-382 | The type read off any word is below 8: one of the eight packed tags. |
| CpCodec.UnpackUnsignedCPValue | rvm/src/org/jikesrvm/classloader/ClassFileReader.java:390-392 | The unsigned payload of any word fits in 29 bits. |
| CpCodec.UnpackSignedCPValue | rvm/src/org/jikesrvm/classloader/ClassFileReader.java:385-387 | The `(w << 3) >> 3` reading of any word lies in [-2^28, 2^28) as a two's-complement int. |
| CpCodec.PackedCPTypeIsClassType | rvm/src/org/jikesrvm/classloader/ClassFileReader.java:395-397 | The masked comparison holds exactly when the word's packed tag is CP_CLASS. |
| CpCodec.PackTempCPEntry | rvm/src/org/jikesrvm/classloader/ClassFileReader.java:400-402 | The low half of a temp pair is the second index masked to 16 bits. |
| CpCodec.UnpackTempCPIndex1 | rvm/src/org/jikesrvm/classloader/ClassFileReader.java:405-407 | The first index of a temp pair is at most 0xffff. |
| CpCodec.UnpackTempCPIndex2 | rvm/src/org/jikesrvm/classloader/ClassFileReader.java:410-412 | The second index of a temp pair is at most 0xffff. |
| CpCodec.UnsignedRoundTrip | rvm/src/org/jikesrvm/classloader/ClassFileReader.java:375-392 | For each of the eight tags and every value below 2^29, unpacking a packed word gives back the tag and the value. |
| CpCodec.SignedRoundTrip | rvm/src/org/jikesrvm/classloader/ClassFileReader.java:375-387 | For every int in [-2^28, 2^28) and any tag, the signed unpacking of the packed word gives back the int. |
| CpCodec.SignedIsSignExtension | rvm/src/org/jikesrvm/classloader/ClassFileReader.java:385-387 | The signed reading keeps the 29 payload bits, stays in [-2^28, 2^28), and is negative exactly when bit 28 is set. |
| CpCodec.PackUnpackIdentity | rvm/src/org/jikesrvm/classloader/ClassFileReader.java:375-392 | Every word is rebuilt from its unpacked tag and unsigned payload. |
| CpCodec.TempPairRoundTrip | rvm/src/org/jikesrvm/classloader/ClassFileReader.java:400-412 | Two 16-bit indices survive a temp pack, read back by the temp accessors and also by the raw `>>> 16` and mask that EnclosingMethod uses. |
| PoolAccess.GetTypeRef | rvm/src/org/jikesrvm/classloader/ClassFileReader.java:483-491 | Index 0 and only index 0 gives the null reference; otherwise the CLASS slot is the packed form of the returned type id. |
| PoolAccess.GetUtf | rvm/src/org/jikesrvm/classloader/ClassFileReader.java:517-521 | The UTF slot is the packed form of the returned atom id. |
| PoolAccess.GetMemberRef | rvm/src/org/jikesrvm/classloader/ClassFileReader.java:497-511 | The MEMBER slot is the packed form of the returned member id. |
| PoolAccess.GetLiteralSize | rvm/src/org/jikesrvm/classloader/ClassFileReader.java:414-430 | A literal's size is 4 for INT and FLOAT, 8 for LONG and DOUBLE, and one address for CLASS and STRING. |
| PoolAccess.GetLiteralDescription | rvm/src/org/jikesrvm/classloader/ClassFileReader.java:472-476 | The description is a packed tag that, with the slot's payload, rebuilds the slot. |
| PoolAccess.GetLiteralOffset | rvm/src/org/jikesrvm/classloader/ClassFileReader.java:436-467 | A non-CLASS literal's offset is the sign-extended payload, in [-2^28, 2^28). |
| PoolAccess.LiteralOffsetRoundTrip | rvm/src/org/jikesrvm/classloader/ClassFileReader.java:436-467 | An offset packed by pass 1 for an INT, FLOAT, LONG, DOUBLE or STRING slot is read back unchanged. |
| PoolAccess.TypeRefAt | rvm/src/org/jikesrvm/classloader/ClassFileReader.java:483-491 | Succeeds exactly for index 0 or a CLASS slot, with `getTypeRef`'s answer; an index past the pool is an out-of-range error. |
| PoolAccess.UtfAt | rvm/src/org/jikesrvm/classloader/ClassFileReader.java:517-521 | Succeeds exactly for a UTF slot, with `getUtf`'s answer; an index past the pool is an out-of-range error. |
| ByteInput.ReadU1 | rvm/src/org/jikesrvm/classloader/ClassFileReader.java:77 | Reads one byte exactly when one remains; otherwise end of input. |
| ByteInput.ReadU2 | rvm/src/org/jikesrvm/classloader/ClassFileReader.java:72 | Reads two bytes exactly when two remain; otherwise end of input. |
| ByteInput.ReadU4 | rvm/src/org/jikesrvm/classloader/ClassFileReader.java:91 | Reads four bytes exactly when four remain; otherwise end of input. |
| ByteInput.ReadU8 | rvm/src/org/jikesrvm/classloader/ClassFileReader.java:103 | Reads eight bytes exactly when eight remain; otherwise end of input. |
| ByteInput.ReadBlock | rvm/src/org/jikesrvm/classloader/ClassFileReader.java:80-81 | `readFully` of n bytes succeeds exactly when n remain and returns n bytes. |
| ByteInput.SkipBytes | rvm/src/org/jikesrvm/classloader/ClassFileReader.java:350 | Skips at most what remains, and skips the requested count exactly when it is between 0 and what remains. |
| ByteInput.ReadU2Encoded | rvm/src/org/jikesrvm/classloader/ClassFileReader.java:72 | Reading the big-endian encoding of a 16-bit value gives it back and the bytes after it. |
| ByteInput.ReadU4Encoded | rvm/src/org/jikesrvm/classloader/ClassFileReader.java:91 | Reading the big-endian encoding of a 32-bit value gives it back and the bytes after it. |
| ByteInput.ReadU8Encoded | rvm/src/org/jikesrvm/classloader/ClassFileReader.java:103 | Reading the big-endian encoding of a 64-bit value gives it back and the bytes after it. |
| ByteInput.ReadBlockEncoded | rvm/src/org/jikesrvm/classloader/ClassFileReader.java:80-81 | A block read of exactly the given bytes gives them back. |
| ByteInput.ReadU2Consumes | rvm/src/org/jikesrvm/classloader/ClassFileReader.java:72 | A successful two-byte read consumed exactly the encoding of its value. |
| ByteInput.ReadU4Consumes | rvm/src/org/jikesrvm/classloader/ClassFileReader.java:91 | A successful four-byte read consumed exactly the encoding of its value. |
| ByteInput.ReadU8Consumes | rvm/src/org/jikesrvm/classloader/ClassFileReader.java:103 | A successful eight-byte read consumed exactly the encoding of its value. |
| ByteInput.ReadBlockConsumes | rvm/src/org/jikesrvm/classloader/ClassFileReader.java:80-81 | A successful block read consumed exactly the bytes it returned. |
| Collaborators.Advance | rvm/src/org/jikesrvm/classloader/ClassFileReader.java:258 | After a sub-reader, reading goes on after the bytes it consumed; its failure, or a claim past the end, fails the class. |
| ClassHeader.ReadHeader | rvm/src/org/jikesrvm/classloader/ClassFileReader.java:47-67 | Success only with a supported version; a wrong magic fails with that magic, an unsupported version with that version, a short file with end of input. |
| ClassHeader.SupportedIsRange | rvm/src/org/jikesrvm/classloader/ClassFileReader.java:54-67 | The version switch accepts exactly the versions from 45.0 to 50.0 inclusive. |
| ClassHeader.ReadHeaderEncoded | rvm/src/org/jikesrvm/classloader/ClassFileReader.java:47-67 | With the right magic a file is accepted exactly when its version is supported, and reading goes on right after the header. |
| ClassHeader.ReadBadMagic | rvm/src/org/jikesrvm/classloader/ClassFileReader.java:47-50 | A wrong magic fails at once whatever follows it. |
| PoolScan.ScannedOrFiller | rvm/src/org/jikesrvm/classloader/ClassFileReader.java:150-155 | Every slot from 1 on is visited by a pass or is the second slot of a visited LONG or DOUBLE, never both. |
| PoolReader.ReadUtf | rvm/src/org/jikesrvm/classloader/ClassFileReader.java:79-81 | A UTF body is a u2 length and exactly that many bytes. |
| PoolReader.ReadWord | rvm/src/org/jikesrvm/classloader/ClassFileReader.java:90-101 | An INT or FLOAT body is read into an entry of the same kind. |
| PoolReader.ReadWide | rvm/src/org/jikesrvm/classloader/ClassFileReader.java:102-115 | A LONG or DOUBLE body is read into an entry of the same kind. |
| PoolReader.ReadIndex | rvm/src/org/jikesrvm/classloader/ClassFileReader.java:116-122 | A TYPEREF or STRING body is read into an entry of the same kind. |
| PoolReader.ReadPair | rvm/src/org/jikesrvm/classloader/ClassFileReader.java:124-138 | A member-reference or name-and-type body is read into a well-formed entry carrying the same tag. |
| PoolReader.ReadBody | rvm/src/org/jikesrvm/classloader/ClassFileReader.java:78-142 | A read entry is well formed and carries the tag it was read under; TAG_UNUSED is not reached; any other unknown tag is a bad constant pool. |
| PoolReader.ReadEntry | rvm/src/org/jikesrvm/classloader/ClassFileReader.java:77-142 | As ReadBody, for the tag byte read first; an empty stream is end of input. |
| PoolReader.ReadEntries | rvm/src/org/jikesrvm/classloader/ClassFileReader.java:76-143 | The run of entries consumes part of the stream. |
| PoolReader.ReadEntriesShape | rvm/src/org/jikesrvm/classloader/ClassFileReader.java:76-143 | The entries read for slots i..count are well formed and fill them, or one slot more when the last is a wide entry. |
| PoolReader.EntrySlots | rvm/src/org/jikesrvm/classloader/ClassFileReader.java:102-115 | The entries take one slot each and two for LONG and DOUBLE. |
| PoolReader.LayOutPool | rvm/src/org/jikesrvm/classloader/ClassFileReader.java:72-73 | The pool and tag arrays have exactly the declared count of slots. |
| PoolReader.ReadConstantPool | rvm/src/org/jikesrvm/classloader/ClassFileReader.java:72-143 | The words and tags arrays are parallel; a stream without its two count bytes is end of input. |
| PoolReader.EntryWordHasShape | rvm/src/org/jikesrvm/classloader/ClassFileReader.java:79-138 | Pass 1 stores a UTF or literal word carrying the matching packed tag, and a raw u2 index for TYPEREF and STRING. |
| PoolReader.ReadEntryEncoded | rvm/src/org/jikesrvm/classloader/ClassFileReader.java:77-142 | Reading the encoding of a well-formed entry gives it back and the bytes after it. |
| PoolReader.ReadEntriesEncoded | rvm/src/org/jikesrvm/classloader/ClassFileReader.java:76-143 | Reading an encoded run of entries that fills its slots gives the run back. |
| PoolReader.ReadConstantPoolEncoded | rvm/src/org/jikesrvm/classloader/ClassFileReader.java:72-143 | A pool whose count is one more than its entries' slots reads back as slot 0 and then those entries' slots. |
| PoolReader.LayoutOfEntries | rvm/src/org/jikesrvm/classloader/ClassFileReader.java:72-143 | Slot 0 empty then the entries' slots, cut to the count, has the layout passes 2 and 3 rely on. |
| PoolReader.PassOneLayoutHolds | rvm/src/org/jikesrvm/classloader/ClassFileReader.java:72-143 | Every pool pass 1 returns has slot 0 empty, a recognised entry of the right shape in every visited slot, and a zero filler after each LONG or DOUBLE. |
| PoolResolver.ResolveTypeOrString | rvm/src/org/jikesrvm/classloader/ClassFileReader.java:157-170 | Succeeds only on a UTF slot and gives a CLASS word for TYPEREF and a STRING word for STRING; on a UTF slot the only failure is a malformed string. |
| PoolResolver.ResolveTypesAndStrings | rvm/src/org/jikesrvm/classloader/ClassFileReader.java:145-175 | Pass 2 rewrites exactly the visited TYPEREF and STRING slots to CLASS and STRING words; on a pool whose references name UTF slots it succeeds iff every string literal interns, and each word depends on the pass-1 words alone. |
| PoolResolver.ResolveMember | rvm/src/org/jikesrvm/classloader/ClassFileReader.java:187-203 | A resolved member reference is a MEMBER word; a name-and-type index past the pool is out of range. |
| PoolResolver.ResolveMembers | rvm/src/org/jikesrvm/classloader/ClassFileReader.java:177-206 | Pass 3 rewrites exactly the visited member-reference slots to MEMBER words; when they reach only stable slots it cannot fail and each word depends on the starting words alone. |
| PoolResolver.WellFormedReadyForPassThree | rvm/src/org/jikesrvm/classloader/ClassFileReader.java:177-206 | After pass 2 on a well-formed pool, pass 3 finds every member reference's targets intact and computes the word read off the pass-1 pool. |
| PoolResolver.ResolvePool | rvm/src/org/jikesrvm/classloader/ClassFileReader.java:145-206 | Passes 2 and 3 leave CLASS, STRING and MEMBER words in the visited slots and everything else as pass 1 left it; on a well-formed pool they succeed iff every string interns, and forward and backward references resolve alike. |
| ClassModifiers.MergeSetsFlags | rvm/src/org/jikesrvm/classloader/ClassFileReader.java:324-327 | Every flag of a self-describing InnerClasses record ends up set. |
| ClassModifiers.MergeTakesAccessLevel | rvm/src/org/jikesrvm/classloader/ClassFileReader.java:324-327 | Record flags saying private or protected give the class their access level alone. |
| ClassModifiers.MergeOnlyAdds | rvm/src/org/jikesrvm/classloader/ClassFileReader.java:324-327 | Other record flags only add bits. |
| ClassModifiers.MergeSetsNothingElse | rvm/src/org/jikesrvm/classloader/ClassFileReader.java:324-327 | Merging sets no bit that neither the modifiers nor the flags carry. |
| ClassModifiers.MergeInnerFlagsIdempotent | rvm/src/org/jikesrvm/classloader/ClassFileReader.java:324-327 | Merging the same record twice equals merging it once. |
| ClassModifiers.MergeKeepsNonAccess | rvm/src/org/jikesrvm/classloader/ClassFileReader.java:324-327 | Merging keeps every modifier outside the access level. |
| ClassAttributes.ReadInnerRecord | rvm/src/org/jikesrvm/classloader/ClassFileReader.java:306-309 | An InnerClasses record is read exactly when eight bytes remain. |
| ClassAttributes.ReadInnerRecordEncoded | rvm/src/org/jikesrvm/classloader/ClassFileReader.java:306-309 | Reading an encoded record gives it back. |
| ClassAttributes.DeclareMember | rvm/src/org/jikesrvm/classloader/ClassFileReader.java:311-314 | A record declaring a named member class of this class fails only when its inner index is not a CLASS slot; the declared list keeps its length. |
| ClassAttributes.ApplySelfRecord | rvm/src/org/jikesrvm/classloader/ClassFileReader.java:316-328 | A self-describing record fails only when its outer index is non-zero and not a CLASS slot, and leaves the declared classes alone. |
| ClassAttributes.ApplyInnerRecord | rvm/src/org/jikesrvm/classloader/ClassFileReader.java:311-328 | A record succeeds exactly when every type reference it makes the reader look up is a CLASS slot. |
| ClassAttributes.SelfRecordWithOuter | rvm/src/org/jikesrvm/classloader/ClassFileReader.java:316-328 | A self-describing record with an outer class sets the declaring class to it, the enclosing class too unless one is known, and merges its flags. |
| ClassAttributes.ApplyResolvingRecord | rvm/src/org/jikesrvm/classloader/ClassFileReader.java:311-328 | A resolving record puts its declared class (or null) in its own slot and merges its flags only if it describes the class. |
| ClassAttributes.ApplyKeepsModifiers | rvm/src/org/jikesrvm/classloader/ClassFileReader.java:316-328 | One record takes away at most the access level. |
| ClassAttributes.InnerRecords | rvm/src/org/jikesrvm/classloader/ClassFileReader.java:305-329 | The records keep a declared-classes list of the record count, consume 8 bytes each and keep every non-access modifier. |
| ClassAttributes.StartInnerClasses | rvm/src/org/jikesrvm/classloader/ClassFileReader.java:302-303 | The declared classes start as one null per record, modifiers untouched. |
| ClassAttributes.ReadInnerClasses | rvm/src/org/jikesrvm/classloader/ClassFileReader.java:302-329 | An InnerClasses attribute always leaves a declared-classes list and keeps every non-access modifier. |
| ClassAttributes.InnerRecordsEncoded | rvm/src/org/jikesrvm/classloader/ClassFileReader.java:305-329 | Records j onwards: slot k holds what record k declares (or null), earlier slots are kept, flags of self records are merged in order. |
| ClassAttributes.ReadInnerClassesEncoded | rvm/src/org/jikesrvm/classloader/ClassFileReader.java:302-329 | A resolving InnerClasses attribute yields, record by record, the declared member class or null, and the flags of every self record merged in order. |
| ClassAttributes.ReadUtfIndex | rvm/src/org/jikesrvm/classloader/ClassFileReader.java:295 | A u2 index is accepted exactly when it names a UTF slot, and gives that slot's atom. |
| ClassAttributes.ReadEnclosingMethod | rvm/src/org/jikesrvm/classloader/ClassFileReader.java:332-344 | EnclosingMethod consumes four bytes and changes only the enclosing class and method. |
| ClassAttributes.ReadEnclosingMethodEncoded | rvm/src/org/jikesrvm/classloader/ClassFileReader.java:332-344 | With a method index, the enclosing method is the member named by the name-and-type halves in the enclosing class, and the enclosing class is set. |
| ClassAttributes.ReadEnclosingClassOnly | rvm/src/org/jikesrvm/classloader/ClassFileReader.java:332-337 | Without a method index, only the enclosing class is set. |
| ClassAttributes.ReadAnnotations | rvm/src/org/jikesrvm/classloader/ClassFileReader.java:347-348 | Succeeds exactly when the annotation reader succeeds within the stream, and changes only the annotations. |
| ClassAttributes.SkipAttribute | rvm/src/org/jikesrvm/classloader/ClassFileReader.java:349-354 | The skip succeeds exactly when the signed length is between 0 and what remains, and goes on after that many bytes; otherwise a short skip. |
| ClassAttributes.ReadAttributeEncoded | rvm/src/org/jikesrvm/classloader/ClassFileReader.java:290-291 | An attribute header is read as its name's atom and its length as a signed int, and the body is dispatched on the bytes after it. |
| ClassAttributes.UnknownAttributeSkipped | rvm/src/org/jikesrvm/classloader/ClassFileReader.java:349-354 | An unrecognised attribute changes nothing and is skipped by its length, or fails with a short skip. |
| ClassAttributes.OddSourceFileSkipped | rvm/src/org/jikesrvm/classloader/ClassFileReader.java:294 | A SourceFile attribute whose length is not 2 is skipped like an unknown one. |
| ClassAttributes.SourceFileEncoded | rvm/src/org/jikesrvm/classloader/ClassFileReader.java:294-295 | A SourceFile attribute of length 2 sets the source name to its UTF atom. |
| ClassAttributes.SignatureEncoded | rvm/src/org/jikesrvm/classloader/ClassFileReader.java:345-346 | A Signature attribute sets the signature to its UTF atom, reading two bytes whatever its length. |
| ClassAttributes.SyntheticSetsFlag | rvm/src/org/jikesrvm/classloader/ClassFileReader.java:330-331 | A Synthetic attribute sets ACC_SYNTHETIC and reads nothing, whatever its length. |
| ClassAttributes.AttributeBodyModifiers | rvm/src/org/jikesrvm/classloader/ClassFileReader.java:294-354 | Only InnerClasses and Synthetic change the modifiers. |
| ClassAttributes.AttributeBodyKeepsModifiers | rvm/src/org/jikesrvm/classloader/ClassFileReader.java:294-354 | No attribute takes away a modifier outside the access level. |
| ClassAttributes.ReadAttributeKeepsModifiers | rvm/src/org/jikesrvm/classloader/ClassFileReader.java:290-354 | One whole attribute keeps every non-access modifier. |
| ClassAttributes.ReadAttributesKeepModifiers | rvm/src/org/jikesrvm/classloader/ClassFileReader.java:289-355 | Any number of attributes, in any order, keep every non-access modifier the class started with. |
| ClassAttributes.ReadAttributeTableKeepsModifiers | rvm/src/org/jikesrvm/classloader/ClassFileReader.java:289-355 | The whole attribute table keeps every non-access modifier. |
| ClassMembers.CheckIdentityAsWritten | rvm/src/org/jikesrvm/classloader/ClassFileReader.java:210-227 | As written: succeeds, giving the expected type, iff the index is a non-zero CLASS slot naming that type (index 0 ends in a null dereference, shown separately). |
| ClassMembers.CheckIdentity | rvm/src/org/jikesrvm/classloader/ClassFileReader.java:210-227 | Corrected: succeeds, giving the expected type, iff the index is a non-zero CLASS slot naming that type. |
| ClassMembers.CheckIdentityCases | rvm/src/org/jikesrvm/classloader/ClassFileReader.java:210-227 | How the corrected check fails: index 0 and a CLASS slot naming a different type are mismatches naming what was found. |
| ClassMembers.IdentityAgreesAwayFromZero | rvm/src/org/jikesrvm/classloader/ClassFileReader.java:210-227 | Away from index 0 the as-written and corrected checks agree. |
| ClassMembers.IdentityAsWrittenDereferencesNull | rvm/src/org/jikesrvm/classloader/ClassFileReader.java:210-218 | At index 0 the check as written dereferences null where the corrected one reports a mismatch. |
| ClassMembers.ReadSuperClass | rvm/src/org/jikesrvm/classloader/ClassFileReader.java:229-233 | Two bytes are consumed, and an interface never gets a super class. |
| ClassMembers.ReadSuperClassEncoded | rvm/src/org/jikesrvm/classloader/ClassFileReader.java:229-233 | A class has a super class iff it is not an interface and its index is non-zero, and then it is the type of that slot. |
| ClassMembers.ReadInterface | rvm/src/org/jikesrvm/classloader/ClassFileReader.java:242-243 | Interface index 0 dereferences null. |
| ClassMembers.ReadInterfaces | rvm/src/org/jikesrvm/classloader/ClassFileReader.java:241-244 | n - i interfaces are read, two bytes each. |
| ClassMembers.IndexedTypes | rvm/src/org/jikesrvm/classloader/ClassFileReader.java:241-244 | The types named by a list of CLASS slots, in order. |
| ClassMembers.ReadInterfacesEncoded | rvm/src/org/jikesrvm/classloader/ClassFileReader.java:235-245 | A table of CLASS indices reads back as the types they name, in order. |
| ClassMembers.NullInterfaceFails | rvm/src/org/jikesrvm/classloader/ClassFileReader.java:241-244 | A 0 interface index anywhere in the table fails the read. |
| ClassMembers.ReadMemberHeader | rvm/src/org/jikesrvm/classloader/ClassFileReader.java:254-257 | A field or method header consumes six bytes. |
| ClassMembers.ReadMemberHeaderEncoded | rvm/src/org/jikesrvm/classloader/ClassFileReader.java:254-257 | A header is read iff its name and descriptor are UTF slots, giving the member created in this class. |
| ClassMembers.ReadField | rvm/src/org/jikesrvm/classloader/ClassFileReader.java:253-258 | A field consumes its six-byte header and more. |
| ClassMembers.ReadFields | rvm/src/org/jikesrvm/classloader/ClassFileReader.java:253-259 | n - i fields are read. |
| ClassMembers.ReadFieldEncoded | rvm/src/org/jikesrvm/classloader/ClassFileReader.java:254-258 | A field whose sub-reader consumes exactly its body is the member its header declares. |
| ClassMembers.DeclaredMembers | rvm/src/org/jikesrvm/classloader/ClassFileReader.java:253-259 | Member `k` of the run is the member header `k` declares in this class. |
| ClassMembers.ReadFieldsEncoded | rvm/src/org/jikesrvm/classloader/ClassFileReader.java:253-259 | Field records whose bodies the sub-reader consumes exactly read back one by one as the members their headers declare, ending after the last body. |
| ClassMembers.ReadFieldTableEncoded | rvm/src/org/jikesrvm/classloader/ClassFileReader.java:247-260 | A counted field table reads back as the members its headers declare, ending after the last body. |
| ClassMembers.ReadMethod | rvm/src/org/jikesrvm/classloader/ClassFileReader.java:270-275 | A method consumes its six-byte header and more. |
| ClassMembers.ReadMethodEncoded | rvm/src/org/jikesrvm/classloader/ClassFileReader.java:270-275 | A method whose sub-reader consumes exactly its body is the declared member, marked as the sub-reader found it. |
| ClassMembers.LastClassInitializer | rvm/src/org/jikesrvm/classloader/ClassFileReader.java:276-278 | None iff no method is a class initializer; otherwise a class initializer among the methods. |
| ClassMembers.ReadMethods | rvm/src/org/jikesrvm/classloader/ClassFileReader.java:269-279 | The class initializer kept is the last one read, or the one seen before if none. |
| ClassMembers.LastOfCons | rvm/src/org/jikesrvm/classloader/ClassFileReader.java:276-278 | The last class initializer of a longer list is the tail's, else the head if it is one. |
| ClassMembers.ReadMethodTable | rvm/src/org/jikesrvm/classloader/ClassFileReader.java:262-280 | The class initializer is the last method that is one. |
| ClassMembers.DeclaredMethods | rvm/src/org/jikesrvm/classloader/ClassFileReader.java:269-279 | Method `k` of the run is the member header `k` declares, marked as a class initializer by flag `k`. |
| ClassMembers.ReadMethodsEncoded | rvm/src/org/jikesrvm/classloader/ClassFileReader.java:269-279 | Method records whose bodies the sub-reader consumes exactly read back one by one as the declared members with their flags, ending after the last body. |
| ClassMembers.ReadMethodTableEncoded | rvm/src/org/jikesrvm/classloader/ClassFileReader.java:262-280 | A counted method table reads back as the declared methods, its class initializer is the last flagged one, and it ends after the last body. |
| ClassReader.ReadClassStart | rvm/src/org/jikesrvm/classloader/ClassFileReader.java:208-227 | Succeeds iff the this-class index is a non-zero CLASS slot naming the expected type, giving the declared modifiers and that index. |
| ClassReader.ReadClassBody | rvm/src/org/jikesrvm/classloader/ClassFileReader.java:208-371 | A read class is the expected type over the given pool, its class initializer is the last one, and an interface has no super class. |
| ClassReader.ReadClassBodyKeepsModifiers | rvm/src/org/jikesrvm/classloader/ClassFileReader.java:281-355 | The class ends with every non-access modifier its file declared. |
| ClassReader.ReadClass | rvm/src/org/jikesrvm/classloader/ClassFileReader.java:37-371 | A bad header or pool fails with that error. A read class is exactly the class body read, after the pool, over its own pool. It passed the identity check, and its class initializer is the last one. An interface has no super class. Each slot holds what its tag makes of the pass-1 word: a CLASS, STRING or member-reference word where a pass resolves it, the pass-1 word otherwise, and on a well-formed pool the resolved word. |

## Left out

- Class loading being disabled, and trace output: these are side effects outside the reading.
- The magic number and the version gate are modelled, but the exception messages are not.
- ClassMembers.ReadSuperClass: the super type is kept as a type reference. `resolve().asClass()` loads other classes.
- ClassMembers.ReadInterface: each interface is kept as a type reference, without `resolve().asClass()`, for the same reason.
- The field and method sub-readers (`RVMField.readField`, `RVMMethod.readMethod`) and `AnnotatedElement.readAnnotations` are other classes' code. They are parameters that report the bytes they consume.
- The registries (`Atom`, `Statics`, `TypeReference`, `MemberReference`) are other classes' code. They are deterministic functions; the type loader, `descriptorFromClassName` and `getStringLiteralOffset` are folded into them.
- PoolReader.ReadBody: a TAG_UNUSED byte is modelled as an internal-consistency failure, as with assertions enabled. With assertions disabled the source leaves the slot 0 and reads on.
- PoolAccess.GetTypeRef, PoolAccess.GetUtf and PoolAccess.GetMemberRef take their assertion as a precondition. The reader itself uses PoolAccess.TypeRefAt and PoolAccess.UtfAt, which report the failed assertion or bad index as an error.
- PoolAccess.GetMemberRef: `getMethodRef` and `getFieldRef` differ only in a cast, and casts are not modelled.
- PoolAccess.GetLiteralOffset: the CLASS branch resolves a type and creates an object literal in the runtime. It is left out, and the precondition excludes CLASS slots.
- PoolAccess.GetLiteralSize: the address size is a parameter, since it depends on the platform.
- ClassAttributes.ReadEnclosingMethod: the `asMethodReference` cast is not modelled.
- ClassReader.ReadClassStart (and so ClassReader.ReadClass): a this-class index of 0 is reported as an identity mismatch, where the source throws a NullPointerException (ClassFileReader.java:210-218); see Findings.
- ByteInput.SkipBytes: it skips as many bytes as remain. `DataInputStream.skipBytes` may skip fewer, and that also ends in the short-skip error.
- ClassAttributes.SourceFileEncoded, ClassAttributes.SignatureEncoded, ClassAttributes.SyntheticSetsFlag and ClassAttributes.OddSourceFileSkipped assume the six recognised attribute names intern to six different atoms.
- ClassReader.ReadClass: there is no round trip over a whole class file. Each part has its own encode-then-read lemma instead.
- ClassReader.ReadClass: bytes after the last attribute are not examined, as in the source.
- Floating point is not modelled: FLOAT and DOUBLE entries are carried as raw bits, as the source interns them.
- A 0 interface index still dereferences null, as written. A class file with that index is malformed anyway.
- VM_RecompilationStrategy.java and ReferenceProcessor.java are not part of this model.

## Findings

| source | as written | input that shows it | evidently intended | confidence | as-written member | corrected member |
|---|---|---|---|---|---|---|
| rvm/src/org/jikesrvm/classloader/ClassFileReader.java:209-227 | `getTypeRef` returns null for a this-class index of 0. The mismatch branch then calls `myTypeRef.getName()` on null while building its message | a class file whose this_class index is 0 | a `ClassFormatError` naming the expected class and what was found | not executed | ClassMembers.CheckIdentityAsWritten (shown by ClassMembers.IdentityAsWrittenDereferencesNull) | ClassMembers.CheckIdentity (proved by ClassMembers.CheckIdentityCases; used by ClassReader.ReadClassStart) |
