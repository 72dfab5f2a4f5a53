/** The 24-bit uncompressed bitmap codec.
    A file is the 14-byte file header, the 40-byte info header, then one
    `Stride(width)`-byte row per image row, bottom row first, each row holding
    blue, green, red per pixel followed by zero padding to a multiple of four.

    `Encode` and `Decode` say what the codec produces; `SaveBMP` and `LoadBMP`
    are the loops that produce it, with a reused row buffer and a read cursor,
    and are proved to compute exactly those functions. */
module BmpCodec {
  import opened ByteOrder
  import opened BmpHeaders
  import opened Images

  datatype Option<T> = None | Some(value: T)

  /** Bytes per row: three per pixel, rounded up to a multiple of four.
      It is the least such multiple. */
  function Stride(w: nat): (r: nat)
    ensures r % 4 == 0 && 3 * w <= r && r - 3 * w < 4
  {
    4 * ((w * 3 + 3) / 4)
  }

  /** The encoder's arithmetic stays within the source's signed 32-bit `int`:
      `3 * width + 3` in the stride and `stride * height` in the image size. */
  predicate Encodable(img: Image) {
    && img.Valid()
    && 3 * img.width + 3 <= INT32_MAX
    && img.height <= INT32_MAX
    && Stride(img.width) * img.height <= INT32_MAX
  }

  /** The file header written for `img`: the defaults, with the total file
      size (the end of the last row) filled in. */
  function FileHeaderFor(img: Image): FileHeader
    requires Encodable(img)
  {
    RowStartValue(Stride(img.width), img.height);
    DefaultFileHeader.(bfSize := RowStart(Stride(img.width), img.height))
  }

  /** The info header written for `img`: the defaults, with the width, the
      height and the size of the pixel data (`height` strides) filled in. */
  function InfoHeaderFor(img: Image): InfoHeader
    requires Encodable(img)
  {
    RowStartValue(Stride(img.width), img.height);
    DefaultInfoHeader.(biWidth := img.width, biHeight := img.height,
                       biSizeImage := RowStart(Stride(img.width), img.height) - HEADERS_SIZE)
  }

  /** The on-disk byte for channel `k` of a pixel: blue, then green, then red. */
  function Channel(c: Color, k: nat): byte
    requires k < 3
  {
    if k == 0 then c.b else if k == 1 then c.g else c.r
  }

  /** One on-disk row: the first `w` pixels of `line` as blue, green, red,
      then zeros up to `stride` bytes. */
  function EncodeRow(line: seq<Color>, w: nat, stride: nat): (r: seq<byte>)
    requires w <= |line| && 3 * w <= stride
    ensures |r| == stride
  {
    seq(stride, i requires 0 <= i < stride => if i < 3 * w then Channel(line[i / 3], i % 3) else 0)
  }

  /** Byte `3 * x + k` of a row belongs to pixel `x`, channel `k`. */
  lemma DivByThree(x: nat, k: nat)
    requires k < 3
    ensures (3 * x + k) / 3 == x && (3 * x + k) % 3 == k
  {
  }

  /** The layout of an encoded row: blue, green, red for each of the first
      `w` pixels, and zero in every padding byte. */
  lemma EncodeRowLayout(line: seq<Color>, w: nat, stride: nat)
    requires w <= |line| && 3 * w <= stride
    ensures forall x :: 0 <= x < w ==>
      var r := EncodeRow(line, w, stride);
      r[3 * x] == line[x].b && r[3 * x + 1] == line[x].g && r[3 * x + 2] == line[x].r
    ensures forall i :: 3 * w <= i < stride ==> EncodeRow(line, w, stride)[i] == 0
  {
    forall x | 0 <= x < w
      ensures var r := EncodeRow(line, w, stride);
        r[3 * x] == line[x].b && r[3 * x + 1] == line[x].g && r[3 * x + 2] == line[x].r
    {
      DivByThree(x, 0);
      DivByThree(x, 1);
      DivByThree(x, 2);
    }
  }

  /** The first `n` on-disk rows: on-disk row `k` is image row `height - 1 - k`. */
  function EncodedRows(img: Image, n: nat): (r: seq<byte>)
    requires img.Valid() && n <= img.height
  {
    if n == 0 then []
    else
      EncodedRows(img, n - 1)
      + EncodeRow(img.pixels[img.height - n], img.width, Stride(img.width))
  }

  /** `n` encoded rows, placed after the headers, end where on-disk row `n`
      would start. */
  lemma {:induction false} EncodedRowsSpan(img: Image, n: nat)
    requires img.Valid() && n <= img.height
    ensures HEADERS_SIZE + |EncodedRows(img, n)| == RowStart(Stride(img.width), n)
  {
    if n > 0 { EncodedRowsSpan(img, n - 1); }
  }

  /** The whole file the encoder writes for `img`: it ends with the last
      on-disk row. */
  function Encode(img: Image): (r: seq<byte>)
    requires Encodable(img)
    ensures |r| == RowStart(Stride(img.width), img.height)
  {
    EncodedRowsSpan(img, img.height);
    FileHeaderBytes(FileHeaderFor(img)) + InfoHeaderBytes(InfoHeaderFor(img))
    + EncodedRows(img, img.height)
  }

  /** The decoder's validation gate: the eight conditions a header must meet. */
  predicate Supported(fh: FileHeader, ih: InfoHeader) {
    && fh.bfType == SIGNATURE
    && fh.bfOffBits == HEADERS_SIZE
    && ih.biSize == INFO_HEADER_SIZE
    && ih.biPlanes == 1
    && ih.biBitCount == BITS_PER_PIXEL
    && ih.biCompression == 0
    && ih.biWidth > 0
    && ih.biHeight > 0
  }

  /** Offset in the file of on-disk row `k`: the headers, then `k` strides.
      Stated by repeated addition; `RowStartValue` gives the closed form. */
  function RowStart(stride: nat, k: nat): nat
  {
    if k == 0 then HEADERS_SIZE else RowStart(stride, k - 1) + stride
  }

  lemma {:induction false} RowStartValue(stride: nat, k: nat)
    ensures RowStart(stride, k) == HEADERS_SIZE + stride * k
  {
    if k > 0 { RowStartValue(stride, k - 1); }
  }

  /** Row `k` ends no later than row `n` starts when `k < n`. */
  lemma {:induction false} RowStartMonotone(stride: nat, k: nat, n: nat)
    requires k < n
    ensures RowStart(stride, k) + stride <= RowStart(stride, n)
  {
    if k + 1 < n { RowStartMonotone(stride, k, n - 1); }
  }

  /** The bytes of on-disk row `k`. */
  function DiskRow(data: seq<byte>, k: nat, stride: nat): (row: seq<byte>)
    requires RowStart(stride, k) + stride <= |data|
    ensures |row| == stride
  {
    data[RowStart(stride, k)..RowStart(stride, k) + stride]
  }

  /** One image row of width `iw` taken from an on-disk row: the first `w`
      pixels from its blue, green, red triples, the rest left black. */
  function DecodeRow(row: seq<byte>, w: nat, iw: nat): (line: seq<Color>)
    requires 3 * w <= |row|
    ensures |line| == iw
  {
    seq(iw, x requires 0 <= x < iw =>
      if x < w then Color(row[3 * x + 2], row[3 * x + 1], row[3 * x]) else Black)
  }

  /** What the decoder returns for the file contents `data`: `None` for a
      short header, an unsupported header or missing pixel rows; otherwise
      an image `Stride(width) / 3` pixels wide. */
  function Decode(data: seq<byte>): (r: Option<Image>)
    ensures r.Some? ==> r.value.Valid() && r.value.width > 0 && r.value.height > 0
  {
    if |data| < HEADERS_SIZE then None
    else
      var fh := ParseFileHeader(data, 0);
      var ih := ParseInfoHeader(data, FILE_HEADER_SIZE);
      if !Supported(fh, ih) then None
      else
        var w: nat, h: nat := ih.biWidth, ih.biHeight;
        var stride := Stride(w);
        if |data| < RowStart(stride, h) then None
        else
          DecodeRowsWidth(data, w, h, stride);
          Some(Image(stride / 3, h, DecodeRows(data, w, h, stride)))
  }

  /** The image rows decoded from on-disk rows `0 .. n - 1`, top row first:
      on-disk row `n - 1` comes first and on-disk row 0 last. */
  function DecodeRows(data: seq<byte>, w: nat, n: nat, stride: nat): (rows: seq<seq<Color>>)
    requires 3 * w <= stride && RowStart(stride, n) <= |data|
    ensures |rows| == n
  {
    seq(n, y requires 0 <= y < n =>
      RowStartMonotone(stride, n - 1 - y, n);
      DecodeRow(DiskRow(data, n - 1 - y, stride), w, stride / 3))
  }

  /** Image row `y` of `n` decoded rows comes from on-disk row `n - 1 - y`. */
  lemma DecodeRowsAt(data: seq<byte>, w: nat, n: nat, stride: nat, y: nat)
    requires 3 * w <= stride && RowStart(stride, n) <= |data| && y < n
    ensures RowStart(stride, n - 1 - y) + stride <= |data|
    ensures DecodeRows(data, w, n, stride)[y] == DecodeRow(DiskRow(data, n - 1 - y, stride), w, stride / 3)
  {
    RowStartMonotone(stride, n - 1 - y, n);
  }

  /** Every decoded row is `stride / 3` pixels wide. */
  lemma DecodeRowsWidth(data: seq<byte>, w: nat, n: nat, stride: nat)
    requires 3 * w <= stride && RowStart(stride, n) <= |data|
    ensures forall y :: 0 <= y < n ==> |DecodeRows(data, w, n, stride)[y]| == stride / 3
  {
    forall y | 0 <= y < n ensures |DecodeRows(data, w, n, stride)[y]| == stride / 3 {
      DecodeRowsAt(data, w, n, stride, y);
    }
  }

  /** Decoding one more on-disk row puts one more image row on top: when
      an image holds the first `n` decoded rows below the untouched rows
      `0 .. y` of `blank`, storing decoded on-disk row `n` at `y` leaves it
      holding the first `n + 1` below the untouched rows `0 .. y - 1`. */
  lemma PutDecodedRow(data: seq<byte>, w: nat, stride: nat, n: nat,
                      blank: seq<seq<Color>>, y: nat, line: seq<Color>)
    requires 3 * w <= stride && RowStart(stride, n) + stride <= |data|
    requires y < |blank|
    requires line == DecodeRow(DiskRow(data, n, stride), w, stride / 3)
    ensures (blank[..y + 1] + DecodeRows(data, w, n, stride))[y := line]
         == blank[..y] + DecodeRows(data, w, n + 1, stride)
  {
    var rows := blank[..y + 1] + DecodeRows(data, w, n, stride);
    assert DecodeRows(data, w, n + 1, stride) == [line] + DecodeRows(data, w, n, stride);
    assert rows[y := line] == blank[..y] + ([line] + DecodeRows(data, w, n, stride));
  }

  /** Writes `img` as a bitmap file: the two headers with the sizes filled
      in, then the pixel rows. */
  method SaveBMP(img: Image) returns (out: seq<byte>)
    requires Encodable(img)
    ensures out == Encode(img)
  {
    var fileHeader := FileHeaderFor(img);
    var infoHeader := InfoHeaderFor(img);
    out := FileHeaderBytes(fileHeader);
    out := out + InfoHeaderBytes(infoHeader);
    var rows := WritePixelRows(img);
    out := out + rows;
  }

  /** The pixel rows from the bottom up, written through one zero-initialised
      row buffer that is reused, so that only its first `3 * width` bytes are
      ever overwritten. */
  method WritePixelRows(img: Image) returns (out: seq<byte>)
    requires img.Valid()
    ensures out == EncodedRows(img, img.height)
  {
    var width := img.width;
    var height := img.height;
    var stride := Stride(width);
    out := [];

    var row := new byte[stride](_ => 0);
    var y: int := height - 1;
    while y >= 0
      invariant -1 <= y < height
      invariant forall i :: 3 * width <= i < stride ==> row[i] == 0
      invariant out == EncodedRows(img, height - 1 - y)
    {
      var line := img.pixels[y];
      FillRow(row, line, width);
      out := out + row[..];
      y := y - 1;
    }
  }

  /** Overwrites the first `3 * w` bytes of `row` with the blue, green, red
      triples of the first `w` pixels of `line`; when the rest of the buffer
      is zero, it then holds the encoded row. */
  method FillRow(row: array<byte>, line: seq<Color>, w: nat)
    requires w <= |line| && 3 * w <= row.Length
    requires forall i :: 3 * w <= i < row.Length ==> row[i] == 0
    modifies row
    ensures row[..] == EncodeRow(line, w, row.Length)
  {
    for x := 0 to w
      invariant forall i :: 3 * w <= i < row.Length ==> row[i] == 0
      invariant forall i :: 0 <= i < x ==>
        row[3 * i] == line[i].b && row[3 * i + 1] == line[i].g && row[3 * i + 2] == line[i].r
    {
      row[3 * x + 0] := line[x].b;
      row[3 * x + 1] := line[x].g;
      row[3 * x + 2] := line[x].r;
    }
    RowBufferIsEncodedRow(row[..], line, w, row.Length);
  }

  /** A buffer holding the triples of the first `w` pixels and zero padding
      is the encoded row. */
  lemma RowBufferIsEncodedRow(buf: seq<byte>, line: seq<Color>, w: nat, stride: nat)
    requires |buf| == stride && w <= |line| && 3 * w <= stride
    requires forall i :: 3 * w <= i < stride ==> buf[i] == 0
    requires forall i :: 0 <= i < w ==>
      buf[3 * i] == line[i].b && buf[3 * i + 1] == line[i].g && buf[3 * i + 2] == line[i].r
    ensures buf == EncodeRow(line, w, stride)
  {
    var r := EncodeRow(line, w, stride);
    forall i | 0 <= i < stride ensures buf[i] == r[i] {
      RowBufferByte(buf, line, w, stride, i);
    }
  }
  /** Byte `i` of such a buffer is byte `i` of the encoded row. */
  lemma RowBufferByte(buf: seq<byte>, line: seq<Color>, w: nat, stride: nat, i: nat)
    requires |buf| == stride && w <= |line| && 3 * w <= stride && i < stride
    requires forall i :: 3 * w <= i < stride ==> buf[i] == 0
    requires forall i :: 0 <= i < w ==>
      buf[3 * i] == line[i].b && buf[3 * i + 1] == line[i].g && buf[3 * i + 2] == line[i].r
    ensures buf[i] == EncodeRow(line, w, stride)[i]
  {
    if i < 3 * w {
      var x, k := i / 3, i % 3;
      assert i == 3 * x + k && x < w;
      assert EncodeRow(line, w, stride)[i] == Channel(line[x], k);
    }
  }

  /** Models `in.read(buf, buf.Length)` at cursor `pos`: copies as many
      bytes as remain, up to the buffer's length, and reports the count. */
  method ReadBytes(data: seq<byte>, pos: nat, buf: array<byte>) returns (count: nat)
    requires pos <= |data|
    modifies buf
    ensures count <= buf.Length && pos + count <= |data|
    ensures count == buf.Length || pos + count == |data|
    ensures buf[..count] == data[pos..pos + count]
    ensures buf[count..] == old(buf[count..])
  {
    count := 0;
    while count < buf.Length && pos + count < |data|
      invariant count <= buf.Length && pos + count <= |data|
      invariant buf[..count] == data[pos..pos + count]
      invariant buf[count..] == old(buf[count..])
    {
      buf[count] := data[pos + count];
      count := count + 1;
    }
  }

  /** Reads a bitmap file: both headers, the validation gate, then the
      pixel rows into an image `Stride(width) / 3` pixels wide. */
  method LoadBMP(data: seq<byte>) returns (result: Option<Image>)
    ensures result == Decode(data)
  {
    if |data| < FILE_HEADER_SIZE {
      return None;
    }
    var fileHeader := ParseFileHeader(data, 0);
    if |data| < HEADERS_SIZE {
      return None;
    }
    var infoHeader := ParseInfoHeader(data, FILE_HEADER_SIZE);

    if fileHeader.bfType != SIGNATURE
       || fileHeader.bfOffBits != HEADERS_SIZE
       || infoHeader.biSize != INFO_HEADER_SIZE
       || infoHeader.biPlanes != 1
       || infoHeader.biBitCount != BITS_PER_PIXEL
       || infoHeader.biCompression != 0
       || infoHeader.biWidth <= 0 || infoHeader.biHeight <= 0
    {
      return None;
    }

    var width: nat := infoHeader.biWidth;
    var height: nat := infoHeader.biHeight;
    var stride := Stride(width);
    var pixels := ReadPixelRows(data, fileHeader.bfOffBits, width, height);
    if pixels.None? {
      return None;
    }
    result := Some(Image(stride / 3, height, pixels.value));
  }

  /** Fills a black image `Stride(width) / 3` pixels wide from the rows that
      start at `offset`, bottom row first, reading one stride per row and
      giving up on the first short read. */
  method ReadPixelRows(data: seq<byte>, offset: nat, width: nat, height: nat)
    returns (pixels: Option<seq<seq<Color>>>)
    requires offset == HEADERS_SIZE <= |data|
    ensures RowStart(Stride(width), height) <= |data| ==>
      pixels == Some(DecodeRows(data, width, height, Stride(width)))
    ensures RowStart(Stride(width), height) > |data| ==> pixels == None
  {
    var stride := Stride(width);
    var imageWidth := stride / 3;
    var blank := Filled(imageWidth, height, Black).pixels;
    var rows := blank;
    var row := new byte[stride];
    var pos := offset;

    var y: int := height - 1;
    assert rows == blank[..y + 1] + DecodeRows(data, width, 0, stride);
    while y >= 0
      invariant -1 <= y < height
      invariant pos == RowStart(stride, height - 1 - y) <= |data|
      invariant rows == blank[..y + 1] + DecodeRows(data, width, height - 1 - y, stride)
    {
      ghost var done := height - 1 - y;
      var ok := ReadRow(data, pos, row);
      if !ok {
        RowStartMonotone(stride, done, height);
        return None;
      }
      assert row[..] == DiskRow(data, done, stride);
      pos := pos + stride;
      assert rows[y] == blank[y];
      var line := UnpackRow(row, rows[y], width);
      PutDecodedRow(data, width, stride, done, blank, y, line);
      rows := rows[y := line];
      y := y - 1;
    }
    assert rows == DecodeRows(data, width, height, stride);
    pixels := Some(rows);
  }

  /** One `in.read` of a whole row buffer at cursor `pos`, reporting
      whether the full buffer was filled. */
  method ReadRow(data: seq<byte>, pos: nat, row: array<byte>) returns (ok: bool)
    requires pos <= |data|
    modifies row
    ensures ok <==> pos + row.Length <= |data|
    ensures ok ==> row[..] == data[pos..pos + row.Length]
    ensures !ok ==> row[..|data| - pos] == data[pos..]
    ensures !ok ==> row[|data| - pos..] == old(row[|data| - pos..])
  {
    var count := ReadBytes(data, pos, row);
    ok := count == row.Length;
    if ok {
      assert row[..] == row[..count];
    }
  }

  /** Overwrites the first `w` pixels of a black `line` with the blue, green,
      red triples at the front of `row`; the padding bytes are never read. */
  method UnpackRow(row: array<byte>, line: seq<Color>, w: nat) returns (filled: seq<Color>)
    requires 3 * w <= row.Length && w <= |line|
    requires forall i :: 0 <= i < |line| ==> line[i] == Black
    ensures filled == DecodeRow(row[..], w, |line|)
  {
    filled := line;
    for x := 0 to w
      invariant |filled| == |line|
      invariant forall i :: 0 <= i < x ==>
        filled[i] == Color(row[3 * i + 2], row[3 * i + 1], row[3 * i])
      invariant forall i :: x <= i < |line| ==> filled[i] == Black
    {
      filled := filled[x := Color(row[3 * x + 2], row[3 * x + 1], row[3 * x + 0])];
    }
  }
}
