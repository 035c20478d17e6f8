/**
 * The class-file byte stream and the big-endian reads `DataInputStream`
 * performs on it. A read takes the bytes still to come and returns the value
 * together with the bytes after it; every read fails with `EndOfInput` when
 * fewer bytes remain than it needs.
 */
module ByteInput {
  import opened Outcomes

  /** A value read from the stream and the bytes that follow it. */
  datatype Read<+T> = Read(value: T, rest: seq<bv8>)

  /** The two big-endian bytes of a 16-bit value. */
  function U2Bytes(v: bv16): seq<bv8> {
    [(v >> 8) as bv8, (v & 0xff) as bv8]
  }

  /** The four big-endian bytes of a 32-bit value. */
  function U4Bytes(v: bv32): seq<bv8> {
    U2Bytes((v >> 16) as bv16) + U2Bytes((v & 0xffff) as bv16)
  }

  /** The eight big-endian bytes of a 64-bit value. */
  function U8Bytes(v: bv64): seq<bv8> {
    U4Bytes((v >> 32) as bv32) + U4Bytes((v & 0xffff_ffff) as bv32)
  }

  function Join16(hi: bv8, lo: bv8): bv16 {
    ((hi as bv16) << 8) | (lo as bv16)
  }

  function Join32(hi: bv16, lo: bv16): bv32 {
    ((hi as bv32) << 16) | (lo as bv32)
  }

  function Join64(hi: bv32, lo: bv32): bv64 {
    ((hi as bv64) << 32) | (lo as bv64)
  }

  lemma Join16Splits(v: bv16)
    ensures Join16((v >> 8) as bv8, (v & 0xff) as bv8) == v
  {
  }

  lemma Join16High(hi: bv8, lo: bv8)
    ensures (Join16(hi, lo) >> 8) as bv8 == hi
  {
  }

  lemma Join16Low(hi: bv8, lo: bv8)
    ensures (Join16(hi, lo) & 0xff) as bv8 == lo
  {
  }

  lemma Join32Splits(v: bv32)
    ensures Join32((v >> 16) as bv16, (v & 0xffff) as bv16) == v
  {
  }

  lemma Join32High(hi: bv16, lo: bv16)
    ensures (Join32(hi, lo) >> 16) as bv16 == hi
  {
  }

  lemma Join32Low(hi: bv16, lo: bv16)
    ensures (Join32(hi, lo) & 0xffff) as bv16 == lo
  {
  }

  lemma Join64Splits(v: bv64)
    ensures Join64((v >> 32) as bv32, (v & 0xffff_ffff) as bv32) == v
  {
  }

  lemma Join64High(hi: bv32, lo: bv32)
    ensures (Join64(hi, lo) >> 32) as bv32 == hi
  {
  }

  lemma Join64Low(hi: bv32, lo: bv32)
    ensures (Join64(hi, lo) & 0xffff_ffff) as bv32 == lo
  {
  }

  lemma U4BytesOfJoin(hi: bv16, lo: bv16)
    ensures U4Bytes(Join32(hi, lo)) == U2Bytes(hi) + U2Bytes(lo)
  {
    Join32High(hi, lo);
    Join32Low(hi, lo);
  }

  lemma U8BytesOfJoin(hi: bv32, lo: bv32)
    ensures U8Bytes(Join64(hi, lo)) == U4Bytes(hi) + U4Bytes(lo)
  {
    Join64High(hi, lo);
    Join64Low(hi, lo);
  }

  /** `readByte` (and the tag byte of a constant-pool entry). */
  function ReadU1(s: seq<bv8>): (r: Result<Read<bv8>>)
    ensures r.Ok? <==> |s| >= 1
    ensures r.Ok? ==> |r.value.rest| == |s| - 1
    ensures r.Err? ==> r.error == EndOfInput
  {
    if |s| >= 1 then Ok(Read(s[0], s[1..])) else Err(EndOfInput)
  }

  /** `readUnsignedShort` / `readShort`: two bytes, big-endian. */
  function ReadU2(s: seq<bv8>): (r: Result<Read<bv16>>)
    ensures r.Ok? <==> |s| >= 2
    ensures r.Ok? ==> |r.value.rest| == |s| - 2
    ensures r.Err? ==> r.error == EndOfInput
  {
    if |s| >= 2 then
      Ok(Read(Join16(s[0], s[1]), s[2..]))
    else
      Err(EndOfInput)
  }

  /** `readInt`: four bytes, big-endian. */
  function ReadU4(s: seq<bv8>): (r: Result<Read<bv32>>)
    ensures r.Ok? <==> |s| >= 4
    ensures r.Ok? ==> |r.value.rest| == |s| - 4
    ensures r.Err? ==> r.error == EndOfInput
  {
    var hi :- ReadU2(s);
    var lo :- ReadU2(hi.rest);
    Ok(Read(Join32(hi.value, lo.value), lo.rest))
  }

  /** `readLong`: eight bytes, big-endian. */
  function ReadU8(s: seq<bv8>): (r: Result<Read<bv64>>)
    ensures r.Ok? <==> |s| >= 8
    ensures r.Ok? ==> |r.value.rest| == |s| - 8
    ensures r.Err? ==> r.error == EndOfInput
  {
    var hi :- ReadU4(s);
    var lo :- ReadU4(hi.rest);
    Ok(Read(Join64(hi.value, lo.value), lo.rest))
  }

  /** `readFully` into a fresh array of `n` bytes. */
  function ReadBlock(s: seq<bv8>, n: nat): (r: Result<Read<seq<bv8>>>)
    ensures r.Ok? <==> n <= |s|
    ensures r.Ok? ==> |r.value.value| == n && |r.value.rest| == |s| - n
    ensures r.Err? ==> r.error == EndOfInput
  {
    if n <= |s| then
      Ok(Read(s[..n], s[n..]))
    else
      Err(EndOfInput)
  }

  /**
   * `skipBytes(n)`: skips as many of the `n` requested bytes as remain and
   * reports how many it skipped; a request of zero or fewer skips nothing.
   */
  function SkipBytes(s: seq<bv8>, n: int): (skipped: nat)
    ensures skipped <= |s|
    ensures skipped == n <==> 0 <= n <= |s|
  {
    if n <= 0 then 0
    else if n <= |s| then n
    else |s|
  }

  /** Reading the encoding of `v` gives back `v` and the bytes after it. */
  lemma ReadU2Encoded(v: bv16, rest: seq<bv8>)
    ensures ReadU2(U2Bytes(v) + rest) == Ok(Read(v, rest))
  {
    var s := U2Bytes(v) + rest;
    assert s[0] == (v >> 8) as bv8 && s[1] == (v & 0xff) as bv8;
    assert s[2..] == rest;
    Join16Splits(v);
  }

  /** Reading the encoding of `v` gives back `v` and the bytes after it. */
  lemma ReadU4Encoded(v: bv32, rest: seq<bv8>)
    ensures ReadU4(U4Bytes(v) + rest) == Ok(Read(v, rest))
  {
    var hi := (v >> 16) as bv16;
    var lo := (v & 0xffff) as bv16;
    assert U4Bytes(v) + rest == U2Bytes(hi) + (U2Bytes(lo) + rest);
    ReadU2Encoded(hi, U2Bytes(lo) + rest);
    ReadU2Encoded(lo, rest);
    Join32Splits(v);
  }

  /** Reading the encoding of `v` gives back `v` and the bytes after it. */
  lemma ReadU8Encoded(v: bv64, rest: seq<bv8>)
    ensures ReadU8(U8Bytes(v) + rest) == Ok(Read(v, rest))
  {
    var hi := (v >> 32) as bv32;
    var lo := (v & 0xffff_ffff) as bv32;
    assert U8Bytes(v) + rest == U4Bytes(hi) + (U4Bytes(lo) + rest);
    ReadU4Encoded(hi, U4Bytes(lo) + rest);
    ReadU4Encoded(lo, rest);
    Join64Splits(v);
  }

  /** Reading a block of exactly the bytes given gives them back and the bytes after them. */
  lemma ReadBlockEncoded(bytes: seq<bv8>, rest: seq<bv8>)
    ensures ReadBlock(bytes + rest, |bytes|) == Ok(Read(bytes, rest))
  {
    assert (bytes + rest)[..|bytes|] == bytes;
    assert (bytes + rest)[|bytes|..] == rest;
  }

  /** A successful read consumed exactly the encoding of the value it returned. */
  lemma ReadU2Consumes(s: seq<bv8>)
    requires ReadU2(s).Ok?
    ensures s == U2Bytes(ReadU2(s).value.value) + ReadU2(s).value.rest
  {
    Join16High(s[0], s[1]);
    Join16Low(s[0], s[1]);
    assert s == [s[0], s[1]] + s[2..];
  }

  /** A successful read consumed exactly the encoding of the value it returned. */
  lemma ReadU4Consumes(s: seq<bv8>)
    requires ReadU4(s).Ok?
    ensures s == U4Bytes(ReadU4(s).value.value) + ReadU4(s).value.rest
  {
    var hi := ReadU2(s).value;
    var lo := ReadU2(hi.rest).value;
    ReadU2Consumes(s);
    ReadU2Consumes(hi.rest);
    U4BytesOfJoin(hi.value, lo.value);
    assert s == U2Bytes(hi.value) + U2Bytes(lo.value) + lo.rest;
  }

  /** A successful read consumed exactly the encoding of the value it returned. */
  lemma ReadU8Consumes(s: seq<bv8>)
    requires ReadU8(s).Ok?
    ensures s == U8Bytes(ReadU8(s).value.value) + ReadU8(s).value.rest
  {
    var hi := ReadU4(s).value;
    var lo := ReadU4(hi.rest).value;
    ReadU4Consumes(s);
    ReadU4Consumes(hi.rest);
    U8BytesOfJoin(hi.value, lo.value);
    assert s == U4Bytes(hi.value) + U4Bytes(lo.value) + lo.rest;
  }

  /** A successful block read consumed exactly the bytes it returned. */
  lemma ReadBlockConsumes(s: seq<bv8>, n: nat)
    requires ReadBlock(s, n).Ok?
    ensures s == ReadBlock(s, n).value.value + ReadBlock(s, n).value.rest
  {
    assert s == s[..n] + s[n..];
  }
}
