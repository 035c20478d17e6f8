/**
 * The first eight bytes of a class file: the magic number, then the minor
 * and major version (section 4.1 of the Java Virtual Machine
 * Specification). The reader accepts every minor version of majors 45 to
 * 49 and only minor 0 of major 50, and fails before it reads any byte of
 * the constant pool when the magic or the version is wrong.
 */
module ClassHeader {
  import opened Outcomes
  import opened ByteInput

  const MAGIC: bv32 := 0xCAFE_BABE

  datatype Version = Version(minor: bv16, major: bv16)

  /** The `switch` on the major version, where case 50 falls through to the default unless the minor is 0. */
  predicate SupportedVersion(major: bv16, minor: bv16) {
    if 45 <= major && major <= 49 then true
    else if major == 50 then minor == 0
    else false
  }

  /** Order of class-file versions: by major, then by minor. */
  function VersionNumber(major: bv16, minor: bv16): nat {
    major as nat * 0x1_0000 + minor as nat
  }

  /** The accepted versions are exactly those from 45.0 up to 50.0, both included. */
  lemma SupportedIsRange(major: bv16, minor: bv16)
    ensures SupportedVersion(major, minor) <==>
      VersionNumber(45, 0) <= VersionNumber(major, minor) <= VersionNumber(50, 0)
  {
    var big, small := major as nat, minor as nat;
    assert small < 0x1_0000;
    assert SupportedVersion(major, minor) <==> (45 <= big <= 49 || (big == 50 && small == 0));
    assert VersionNumber(major, minor) == big * 0x1_0000 + small;
  }

  /** The magic number and the version gate. */
  function ReadHeader(s: seq<bv8>): (r: Result<Read<Version>>)
    ensures r.Ok? ==> SupportedVersion(r.value.value.major, r.value.value.minor)
    ensures r.Ok? ==> |r.value.rest| == |s| - 8
    ensures r.Err? ==> r.error.EndOfInput? || r.error.BadMagic? || r.error.UnsupportedVersion?
    ensures r.Err? && r.error.BadMagic? ==> r.error.magic != MAGIC
    ensures r.Err? && r.error.UnsupportedVersion? ==> !SupportedVersion(r.error.major, r.error.minor)
    ensures |s| < 4 ==> r == Err(EndOfInput)
  {
    var magic :- ReadU4(s);
    if magic.value != MAGIC then
      Err(BadMagic(magic.value))
    else
      var minor :- ReadU2(magic.rest);
      var major :- ReadU2(minor.rest);
      if SupportedVersion(major.value, minor.value) then
        Ok(Read(Version(minor.value, major.value), major.rest))
      else
        Err(UnsupportedVersion(major.value, minor.value))
  }

  /** The encoded header of version `v`, followed by the rest of the file. */
  function EncodeHeader(v: Version): seq<bv8> {
    U4Bytes(MAGIC) + U2Bytes(v.minor) + U2Bytes(v.major)
  }

  /**
   * A file with the right magic is accepted exactly when its version is
   * supported, and then the reader goes on at the byte after the header;
   * whatever follows the header never changes the outcome.
   */
  lemma ReadHeaderEncoded(v: Version, rest: seq<bv8>)
    ensures ReadHeader(EncodeHeader(v) + rest) ==
      if SupportedVersion(v.major, v.minor) then Ok(Read(v, rest))
      else Err(UnsupportedVersion(v.major, v.minor))
  {
    var s := EncodeHeader(v) + rest;
    assert s == U4Bytes(MAGIC) + (U2Bytes(v.minor) + (U2Bytes(v.major) + rest));
    ReadU4Encoded(MAGIC, U2Bytes(v.minor) + (U2Bytes(v.major) + rest));
    ReadU2Encoded(v.minor, U2Bytes(v.major) + rest);
    ReadU2Encoded(v.major, rest);
  }

  /** A wrong magic number fails at once, whatever follows it, even nothing. */
  lemma ReadBadMagic(magic: bv32, rest: seq<bv8>)
    requires magic != MAGIC
    ensures ReadHeader(U4Bytes(magic) + rest) == Err(BadMagic(magic))
  {
    ReadU4Encoded(magic, rest);
  }
}
