/** Fixed-width integers and their little-endian byte layout.
    The bitmap headers are packed records of 16- and 32-bit fields stored
    least significant byte first; this module states that layout explicitly
    instead of relying on a host's struct layout and byte order. */
module ByteOrder {

  type byte = x: int | 0 <= x < 0x100
  type uint16 = x: int | 0 <= x < 0x1_0000
  type uint32 = x: int | 0 <= x < 0x1_0000_0000
  type int32 = x: int | -0x8000_0000 <= x < 0x8000_0000

  const INT32_MAX: int := 0x7FFF_FFFF

  /** The two bytes of `v`, least significant first. */
  function LE16(v: uint16): (r: seq<byte>)
    ensures |r| == 2
  {
    [v % 0x100, v / 0x100]
  }

  /** The four bytes of `v`, least significant first. */
  function LE32(v: uint32): (r: seq<byte>)
    ensures |r| == 4
  {
    var hi := v / 0x100 / 0x100;
    [v % 0x100, (v / 0x100) % 0x100, hi % 0x100, hi / 0x100]
  }

  /** The 16-bit value stored little-endian at `s[i..i+2]`. */
  function ReadU16(s: seq<byte>, i: nat): uint16
    requires i + 2 <= |s|
  {
    s[i] as int + 0x100 * s[i + 1] as int
  }

  /** The 32-bit value stored little-endian at `s[i..i+4]`. */
  function ReadU32(s: seq<byte>, i: nat): uint32
    requires i + 4 <= |s|
  {
    s[i] as int + 0x100 * (s[i + 1] as int + 0x100 * (s[i + 2] as int + 0x100 * s[i + 3] as int))
  }

  /** Two's-complement bit pattern of a signed 32-bit value. */
  function Int32Bits(v: int32): (u: uint32)
    ensures v >= 0 ==> u == v
  {
    if v < 0 then v + 0x1_0000_0000 else v
  }

  /** The signed 32-bit value whose two's-complement bit pattern is `u`. */
  function Int32OfBits(u: uint32): (v: int32)
    ensures u <= INT32_MAX ==> v == u
  {
    if u <= INT32_MAX then u else u - 0x1_0000_0000
  }

  /** The signed 32-bit value stored little-endian at `s[i..i+4]`. */
  function ReadI32(s: seq<byte>, i: nat): int32
    requires i + 4 <= |s|
  {
    Int32OfBits(ReadU32(s, i))
  }

  /** A 16-bit value written at `s[i..]` reads back unchanged. */
  lemma U16RoundTrip(v: uint16, s: seq<byte>, i: nat)
    requires i + 2 <= |s| && s[i..i + 2] == LE16(v)
    ensures ReadU16(s, i) == v
  {
    assert s[i] == s[i..i + 2][0] && s[i + 1] == s[i..i + 2][1];
  }

  /** A 32-bit value written at `s[i..]` reads back unchanged. */
  lemma U32RoundTrip(v: uint32, s: seq<byte>, i: nat)
    requires i + 4 <= |s| && s[i..i + 4] == LE32(v)
    ensures ReadU32(s, i) == v
  {
    var w := s[i..i + 4];
    assert s[i] == w[0] && s[i + 1] == w[1] && s[i + 2] == w[2] && s[i + 3] == w[3];
  }

  /** A signed 32-bit value written at `s[i..]` reads back unchanged. */
  lemma I32RoundTrip(v: int32, s: seq<byte>, i: nat)
    requires i + 4 <= |s| && s[i..i + 4] == LE32(Int32Bits(v))
    ensures ReadI32(s, i) == v
  {
    U32RoundTrip(Int32Bits(v), s, i);
  }

  /** Where `a + b` sits in `s`, `a` and `b` sit side by side. */
  lemma SplitSlice(s: seq<byte>, at: nat, a: seq<byte>, b: seq<byte>)
    requires at + |a| + |b| <= |s| && s[at..at + |a| + |b|] == a + b
    ensures s[at..at + |a|] == a && s[at + |a|..at + |a| + |b|] == b
  {
    assert s[at..at + |a|] == s[at..at + |a| + |b|][..|a|];
    assert s[at + |a|..at + |a| + |b|] == s[at..at + |a| + |b|][|a|..];
  }

  /** Two adjacent slices of `s` make up the slice that spans both. */
  lemma JoinSlice(s: seq<byte>, at: nat, n: nat, m: nat)
    requires at + n + m <= |s|
    ensures s[at..at + n + m] == s[at..at + n] + s[at + n..at + n + m]
  {
  }

  /** A slice inside the first part of a concatenation lies in that part. */
  lemma SliceOfPrefix(a: seq<byte>, b: seq<byte>, lo: nat, hi: nat)
    requires lo <= hi <= |a|
    ensures (a + b)[lo..hi] == a[lo..hi]
  {
  }

  /** The second part of a concatenation is the slice after the first. */
  lemma SliceOfSuffix(a: seq<byte>, b: seq<byte>)
    ensures (a + b)[|a|..|a| + |b|] == b
  {
  }

  /** Concatenation is associative. */
  lemma ConcatAssoc(a: seq<byte>, b: seq<byte>, c: seq<byte>)
    ensures a + (b + c) == (a + b) + c
  {
  }

  /** Reading a 16-bit field and writing it back gives the same two bytes. */
  lemma LE16OfRead(s: seq<byte>, i: nat)
    requires i + 2 <= |s|
    ensures LE16(ReadU16(s, i)) == s[i..i + 2]
  {
  }

  /** Reading a 32-bit field and writing it back gives the same four bytes. */
  lemma LE32OfRead(s: seq<byte>, i: nat)
    requires i + 4 <= |s|
    ensures LE32(ReadU32(s, i)) == s[i..i + 4]
  {
    var u := s[i + 2] as int + 0x100 * s[i + 3] as int;
    var t := s[i + 1] as int + 0x100 * u;
    SplitLowByte(s[i], t);
    SplitLowByte(s[i + 1], u);
    SplitLowByte(s[i + 2], s[i + 3]);
  }

  /** Dividing `lo + 256 * hi` by 256 separates the low byte from the rest. */
  lemma SplitLowByte(lo: byte, hi: nat)
    ensures (lo + 0x100 * hi) % 0x100 == lo && (lo + 0x100 * hi) / 0x100 == hi
  {
  }

  /** The bit pattern of a signed field read from four bytes is the
      unsigned value of those bytes. */
  lemma Int32BitsOfRead(s: seq<byte>, i: nat)
    requires i + 4 <= |s|
    ensures Int32Bits(ReadI32(s, i)) == ReadU32(s, i)
  {
  }
}
