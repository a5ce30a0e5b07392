/**
 Network (big-endian) byte order: the fixed-width unsigned integers of the
 wire format, how they are read from a datagram (`NetworkEndian::read_*`)
 and how they are appended to a reply buffer (`BufMut::put_*`).
 */
module NetworkEndian {

  type Byte = x: int | 0 <= x < 0x100
  type U16 = x: int | 0 <= x < 0x1_0000
  type U32 = x: int | 0 <= x < 0x1_0000_0000
  type U64 = x: int | 0 <= x < 0x1_0000_0000_0000_0000

  /** 256 to the power n: one more than the largest n-byte value. */
  function Pow256(n: nat): (p: nat)
    ensures p >= 1
  {
    if n == 0 then 1 else 256 * Pow256(n - 1)
  }

  lemma Pow256Widths()
    ensures Pow256(2) == 0x1_0000
    ensures Pow256(4) == 0x1_0000_0000
    ensures Pow256(8) == 0x1_0000_0000_0000_0000
  {
  }

  /** The unsigned value of a byte string read most significant byte first. */
  function BE(s: seq<Byte>): (v: nat)
    ensures v < Pow256(|s|)
  {
    if s == [] then 0 else BE(s[..|s| - 1]) * 256 + s[|s| - 1]
  }

  /** The n-byte big-endian representation of v. */
  function BytesOf(v: nat, n: nat): (s: seq<Byte>)
    requires v < Pow256(n)
    ensures |s| == n
    ensures BE(s) == v
  {
    if n == 0 then []
    else
      var s := BytesOf(v / 256, n - 1) + [v % 256];
      assert s[..|s| - 1] == BytesOf(v / 256, n - 1);
      s
  }

  /** Writing back what was read gives the same bytes. */
  lemma {:induction false} BytesOfBE(s: seq<Byte>)
    ensures BytesOf(BE(s), |s|) == s
  {
    if s != [] {
      var init := s[..|s| - 1];
      BytesOfBE(init);
      assert BE(s) / 256 == BE(init);
      assert BE(s) % 256 == s[|s| - 1];
      assert s == init + [s[|s| - 1]];
    }
  }

  /** `put_u16`, `put_u32`, `put_u64`: the value's bytes, most significant first. */
  function PutU16(x: U16): (s: seq<Byte>)
    ensures |s| == 2
  {
    Pow256Widths();
    BytesOf(x, 2)
  }

  function PutU32(x: U32): (s: seq<Byte>)
    ensures |s| == 4
  {
    Pow256Widths();
    BytesOf(x, 4)
  }

  function PutU64(x: U64): (s: seq<Byte>)
    ensures |s| == 8
  {
    Pow256Widths();
    BytesOf(x, 8)
  }

  /** `read_u16(&buf[off..off + 2])`; the two bytes at off as one number. */
  function ReadU16(buf: seq<Byte>, off: nat): U16
    requires off + 2 <= |buf|
  {
    Pow256Widths();
    BE(buf[off..off + 2])
  }

  /** `read_u32(&buf[off..off + 4])`; the four bytes at off as one number. */
  function ReadU32(buf: seq<Byte>, off: nat): U32
    requires off + 4 <= |buf|
  {
    Pow256Widths();
    BE(buf[off..off + 4])
  }

  /** `read_u64(&buf[off..off + 8])`; the eight bytes at off as one number. */
  function ReadU64(buf: seq<Byte>, off: nat): U64
    requires off + 8 <= |buf|
  {
    Pow256Widths();
    BE(buf[off..off + 8])
  }

  /** A u32 below 256 is written as three zero bytes and the value itself. */
  lemma PutU32Small(x: U32)
    requires x < 0x100
    ensures PutU32(x) == [0, 0, 0, x]
  {
    Pow256Widths();
    assert BytesOf(0, 3) == [0, 0, 0];
  }

  /** Reading a field back from where it was put gives the value put there. */
  lemma ReadPutU16(buf: seq<Byte>, off: nat, x: U16)
    requires off + 2 <= |buf| && buf[off..off + 2] == PutU16(x)
    ensures ReadU16(buf, off) == x
  {
  }

  lemma ReadPutU32(buf: seq<Byte>, off: nat, x: U32)
    requires off + 4 <= |buf| && buf[off..off + 4] == PutU32(x)
    ensures ReadU32(buf, off) == x
  {
  }

  lemma ReadPutU64(buf: seq<Byte>, off: nat, x: U64)
    requires off + 8 <= |buf| && buf[off..off + 8] == PutU64(x)
    ensures ReadU64(buf, off) == x
  {
  }

  /** Putting back what was read gives the bytes it was read from. */
  lemma PutReadU16(buf: seq<Byte>, off: nat)
    requires off + 2 <= |buf|
    ensures PutU16(ReadU16(buf, off)) == buf[off..off + 2]
  {
    Pow256Widths();
    BytesOfBE(buf[off..off + 2]);
  }

  lemma PutReadU32(buf: seq<Byte>, off: nat)
    requires off + 4 <= |buf|
    ensures PutU32(ReadU32(buf, off)) == buf[off..off + 4]
  {
    Pow256Widths();
    BytesOfBE(buf[off..off + 4]);
  }

  lemma PutReadU64(buf: seq<Byte>, off: nat)
    requires off + 8 <= |buf|
    ensures PutU64(ReadU64(buf, off)) == buf[off..off + 8]
  {
    Pow256Widths();
    BytesOfBE(buf[off..off + 8]);
  }

  /** A u32 appended to a buffer reads back from the offset where it starts. */
  lemma ReadLastU32(p: seq<Byte>, x: U32)
    ensures ReadU32(p + PutU32(x), |p|) == x
  {
    assert (p + PutU32(x))[|p|..|p| + 4] == PutU32(x);
    ReadPutU32(p + PutU32(x), |p|, x);
  }

  /** A field inside a prefix reads the same once more bytes are appended. */
  lemma ReadU32Prefix(h: seq<Byte>, rest: seq<Byte>, off: nat)
    requires off + 4 <= |h|
    ensures ReadU32(h + rest, off) == ReadU32(h, off)
  {
    assert (h + rest)[off..off + 4] == h[off..off + 4];
  }

  /**
   `read_i32`: the four bytes read as a two's-complement signed integer,
   i.e. the unique value in the i32 range congruent to the unsigned reading.
   */
  function ToI32(u: U32): (i: int)
    ensures -0x8000_0000 <= i < 0x8000_0000
    ensures i % 0x1_0000_0000 == u
    ensures i < 0 <==> u >= 0x8000_0000
  {
    if u < 0x8000_0000 then u else u - 0x1_0000_0000
  }

  /** The bit pattern of a signed 32-bit integer, as `put_i32` writes it. */
  function FromI32(i: int): (u: U32)
    requires -0x8000_0000 <= i < 0x8000_0000
    ensures ToI32(u) == i
  {
    if i >= 0 then i else i + 0x1_0000_0000
  }

  /** A slice is the concatenation of its two halves. */
  lemma SliceSplit(s: seq<Byte>, i: nat, j: nat, k: nat)
    requires i <= j <= k <= |s|
    ensures s[i..k] == s[i..j] + s[j..k]
  {
  }

  /** A slice of the second part of a concatenation is the same slice of that part. */
  lemma SliceAfter(h: seq<Byte>, t: seq<Byte>, k: nat, n: nat)
    requires k + n <= |t|
    ensures (h + t)[|h| + k..|h| + k + n] == t[k..k + n]
  {
  }

  /** A slice of the middle part of a concatenation is the same slice of that part. */
  lemma SliceShift(p: seq<Byte>, t: seq<Byte>, q: seq<Byte>, k: nat, n: nat)
    requires k + n <= |t|
    ensures (p + t + q)[|p| + k..|p| + k + n] == t[k..k + n]
  {
  }
}
