/** The two packed header records at the front of a 24-bit bitmap file:
    the 14-byte file header and the 40-byte info header, with the default
    field values the codec starts from and their exact little-endian byte
    layout. No validation lives here; the decoder's gate does that. */
module BmpHeaders {
  import opened ByteOrder

  const FILE_HEADER_SIZE: nat := 14
  const INFO_HEADER_SIZE: nat := 40
  /** Offset of the first pixel row: both headers, nothing else. */
  const HEADERS_SIZE: nat := FILE_HEADER_SIZE + INFO_HEADER_SIZE

  /** 'BM' read as a little-endian 16-bit value. */
  const SIGNATURE: uint16 := 0x4D42
  const BITS_PER_PIXEL: uint16 := 24
  /** Default resolution, about 300 dots per inch. */
  const PELS_PER_METER: int32 := 11811
  const IMPORTANT_COLORS: uint32 := 0x100_0000

  datatype FileHeader = FileHeader(
    bfType: uint16,
    bfSize: uint32,
    bfReserved: uint32,
    bfOffBits: uint32)

  datatype InfoHeader = InfoHeader(
    biSize: uint32,
    biWidth: int32,
    biHeight: int32,
    biPlanes: uint16,
    biBitCount: uint16,
    biCompression: uint32,
    biSizeImage: uint32,
    biXPelsPerMeter: int32,
    biYPelsPerMeter: int32,
    biClrUsed: uint32,
    biClrImportant: uint32)

  /** A freshly constructed file header. */
  const DefaultFileHeader: FileHeader := FileHeader(SIGNATURE, 0, 0, HEADERS_SIZE)

  /** A freshly constructed info header. */
  const DefaultInfoHeader: InfoHeader :=
    InfoHeader(INFO_HEADER_SIZE, 0, 0, 1, BITS_PER_PIXEL, 0, 0,
               PELS_PER_METER, PELS_PER_METER, 0, IMPORTANT_COLORS)

  /** The file header as it is laid out on disk. */
  function FileHeaderBytes(h: FileHeader): (r: seq<byte>)
    ensures |r| == FILE_HEADER_SIZE
  {
    LE16(h.bfType) + LE32(h.bfSize) + LE32(h.bfReserved) + LE32(h.bfOffBits)
  }

  /** The info header as it is laid out on disk. */
  function InfoHeaderBytes(h: InfoHeader): (r: seq<byte>)
    ensures |r| == INFO_HEADER_SIZE
  {
    LE32(h.biSize) + LE32(Int32Bits(h.biWidth)) + LE32(Int32Bits(h.biHeight))
    + LE16(h.biPlanes) + LE16(h.biBitCount) + LE32(h.biCompression)
    + LE32(h.biSizeImage) + LE32(Int32Bits(h.biXPelsPerMeter))
    + LE32(Int32Bits(h.biYPelsPerMeter)) + LE32(h.biClrUsed) + LE32(h.biClrImportant)
  }

  /** Reads a file header from the 14 bytes at `s[at..]`. */
  function ParseFileHeader(s: seq<byte>, at: nat): FileHeader
    requires at + FILE_HEADER_SIZE <= |s|
  {
    FileHeader(ReadU16(s, at), ReadU32(s, at + 2), ReadU32(s, at + 6), ReadU32(s, at + 10))
  }

  /** Reads an info header from the 40 bytes at `s[at..]`. */
  function ParseInfoHeader(s: seq<byte>, at: nat): InfoHeader
    requires at + INFO_HEADER_SIZE <= |s|
  {
    InfoHeader(
      ReadU32(s, at), ReadI32(s, at + 4), ReadI32(s, at + 8),
      ReadU16(s, at + 12), ReadU16(s, at + 14), ReadU32(s, at + 16),
      ReadU32(s, at + 20), ReadI32(s, at + 24), ReadI32(s, at + 28),
      ReadU32(s, at + 32), ReadU32(s, at + 36))
  }

  /** Writing a file header and reading it back from wherever it sits
      in a larger buffer yields the same header. */
  lemma FileHeaderRoundTrip(h: FileHeader, s: seq<byte>, at: nat)
    requires at + FILE_HEADER_SIZE <= |s| && s[at..at + FILE_HEADER_SIZE] == FileHeaderBytes(h)
    ensures ParseFileHeader(s, at) == h
  {
    var p0, p1, p2, p3 := LE16(h.bfType), LE32(h.bfSize), LE32(h.bfReserved), LE32(h.bfOffBits);
    SplitSlice(s, at, p0 + p1 + p2, p3);
    SplitSlice(s, at, p0 + p1, p2);
    SplitSlice(s, at, p0, p1);
    U16RoundTrip(h.bfType, s, at);
    U32RoundTrip(h.bfSize, s, at + 2);
    U32RoundTrip(h.bfReserved, s, at + 6);
    U32RoundTrip(h.bfOffBits, s, at + 10);
  }

  /** Writing an info header and reading it back yields the same header. */
  lemma InfoHeaderRoundTrip(h: InfoHeader, s: seq<byte>, at: nat)
    requires at + INFO_HEADER_SIZE <= |s| && s[at..at + INFO_HEADER_SIZE] == InfoHeaderBytes(h)
    ensures ParseInfoHeader(s, at) == h
  {
    var p0, p1, p2 := LE32(h.biSize), LE32(Int32Bits(h.biWidth)), LE32(Int32Bits(h.biHeight));
    var p3, p4, p5 := LE16(h.biPlanes), LE16(h.biBitCount), LE32(h.biCompression);
    var p6, p7, p8 := LE32(h.biSizeImage), LE32(Int32Bits(h.biXPelsPerMeter)), LE32(Int32Bits(h.biYPelsPerMeter));
    var p9, p10 := LE32(h.biClrUsed), LE32(h.biClrImportant);
    SplitSlice(s, at, p0 + p1 + p2 + p3 + p4 + p5 + p6 + p7 + p8 + p9, p10);
    SplitSlice(s, at, p0 + p1 + p2 + p3 + p4 + p5 + p6 + p7 + p8, p9);
    SplitSlice(s, at, p0 + p1 + p2 + p3 + p4 + p5 + p6 + p7, p8);
    SplitSlice(s, at, p0 + p1 + p2 + p3 + p4 + p5 + p6, p7);
    SplitSlice(s, at, p0 + p1 + p2 + p3 + p4 + p5, p6);
    SplitSlice(s, at, p0 + p1 + p2 + p3 + p4, p5);
    SplitSlice(s, at, p0 + p1 + p2 + p3, p4);
    SplitSlice(s, at, p0 + p1 + p2, p3);
    SplitSlice(s, at, p0 + p1, p2);
    SplitSlice(s, at, p0, p1);
    U32RoundTrip(h.biSize, s, at);
    I32RoundTrip(h.biWidth, s, at + 4);
    I32RoundTrip(h.biHeight, s, at + 8);
    U16RoundTrip(h.biPlanes, s, at + 12);
    U16RoundTrip(h.biBitCount, s, at + 14);
    U32RoundTrip(h.biCompression, s, at + 16);
    U32RoundTrip(h.biSizeImage, s, at + 20);
    I32RoundTrip(h.biXPelsPerMeter, s, at + 24);
    I32RoundTrip(h.biYPelsPerMeter, s, at + 28);
    U32RoundTrip(h.biClrUsed, s, at + 32);
    U32RoundTrip(h.biClrImportant, s, at + 36);
  }

  /** Every 14 bytes are the image of exactly one file header: parsing and
      writing back restores the bytes. */
  lemma FileHeaderBytesOfParse(s: seq<byte>, at: nat)
    requires at + FILE_HEADER_SIZE <= |s|
    ensures FileHeaderBytes(ParseFileHeader(s, at)) == s[at..at + FILE_HEADER_SIZE]
  {
    LE16OfRead(s, at);
    LE32OfRead(s, at + 2);
    LE32OfRead(s, at + 6);
    LE32OfRead(s, at + 10);
    assert s[at..at + FILE_HEADER_SIZE]
        == s[at..at + 2] + s[at + 2..at + 6] + s[at + 6..at + 10] + s[at + 10..at + 14];
  }

  /** Every 40 bytes are the image of exactly one info header. */
  lemma InfoHeaderBytesOfParse(s: seq<byte>, at: nat)
    requires at + INFO_HEADER_SIZE <= |s|
    ensures InfoHeaderBytes(ParseInfoHeader(s, at)) == s[at..at + INFO_HEADER_SIZE]
  {
    var h := ParseInfoHeader(s, at);
    LE32OfRead(s, at);
    Int32BitsOfRead(s, at + 4);
    LE32OfRead(s, at + 4);
    Int32BitsOfRead(s, at + 8);
    LE32OfRead(s, at + 8);
    LE16OfRead(s, at + 12);
    LE16OfRead(s, at + 14);
    LE32OfRead(s, at + 16);
    LE32OfRead(s, at + 20);
    Int32BitsOfRead(s, at + 24);
    LE32OfRead(s, at + 24);
    Int32BitsOfRead(s, at + 28);
    LE32OfRead(s, at + 28);
    LE32OfRead(s, at + 32);
    LE32OfRead(s, at + 36);
    JoinSlice(s, at, 4, 4);
    JoinSlice(s, at, 8, 4);
    JoinSlice(s, at, 12, 2);
    JoinSlice(s, at, 14, 2);
    JoinSlice(s, at, 16, 4);
    JoinSlice(s, at, 20, 4);
    JoinSlice(s, at, 24, 4);
    JoinSlice(s, at, 28, 4);
    JoinSlice(s, at, 32, 4);
    JoinSlice(s, at, 36, 4);
  }
}
