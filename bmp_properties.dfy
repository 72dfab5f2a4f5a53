/** What the bitmap codec promises, stated over `Encode` and `Decode`:
    the stride arithmetic, the exact file layout the encoder writes, the
    decoder's rejection rules, the bytes it ignores, and the round trip. */
module BmpProperties {
  import opened ByteOrder
  import opened BmpHeaders
  import opened Images
  import opened BmpCodec

  // ---------------------------------------------------------------------
  // Stride

  /** The decoder's image width `Stride(w) / 3` exceeds `w` by one column
      exactly when `w % 4 == 3`. */
  lemma StrideOverThree(w: nat)
    ensures Stride(w) / 3 == if w % 4 == 3 then w + 1 else w
  {
    var q, m := w / 4, w % 4;
    assert w * 3 + 3 == 4 * (3 * q) + (3 * m + 3);
    assert (w * 3 + 3) / 4 == 3 * q + (3 * m + 3) / 4;
    if m == 3 {
      assert Stride(w) == 12 * q + 12 == 3 * (w + 1);
    } else {
      assert Stride(w) == 12 * q + 4 * m && 12 * q + 4 * m == 3 * w + m;
    }
  }

  /** Every on-disk row starts after the headers. */
  lemma {:induction false} RowStartAfterHeaders(stride: nat, k: nat)
    ensures HEADERS_SIZE <= RowStart(stride, k)
  {
    if k > 0 { RowStartAfterHeaders(stride, k - 1); }
  }

  // ---------------------------------------------------------------------
  // Encoder layout

  /** The encoded headers carry the fixed defaults, the image's width and
      height, `stride * height` as the pixel data size, and the length of
      the whole output, `54 + stride * height`, as the file size stored at
      bytes 2..5. */
  lemma EncodeHeaderFields(img: Image)
    requires Encodable(img)
    ensures var e, s := Encode(img), Stride(img.width);
      && |e| == HEADERS_SIZE + s * img.height
      && ReadU32(e, 2) == |e|
      && ParseFileHeader(e, 0) == FileHeader(0x4D42, |e|, 0, 54)
      && ParseInfoHeader(e, FILE_HEADER_SIZE)
         == InfoHeader(40, img.width, img.height, 1, 24, 0, s * img.height,
                       11811, 11811, 0, 0x100_0000)
  {
    var e := Encode(img);
    var fileBytes := FileHeaderBytes(FileHeaderFor(img));
    var infoBytes := InfoHeaderBytes(InfoHeaderFor(img));
    assert e == fileBytes + infoBytes + EncodedRows(img, img.height);
    assert e[0..FILE_HEADER_SIZE] == fileBytes;
    assert e[FILE_HEADER_SIZE..FILE_HEADER_SIZE + INFO_HEADER_SIZE] == infoBytes;
    FileHeaderRoundTrip(FileHeaderFor(img), e, 0);
    InfoHeaderRoundTrip(InfoHeaderFor(img), e, FILE_HEADER_SIZE);
    RowStartValue(Stride(img.width), img.height);
  }

  /** After a 54-byte prefix, the last of the first `n` encoded rows sits at
      the offset of on-disk row `n - 1`. */
  lemma EncodedRowsLast(pre: seq<byte>, img: Image, n: nat)
    requires |pre| == HEADERS_SIZE && img.Valid() && 0 < n <= img.height
    ensures var s := Stride(img.width);
      && RowStart(s, n - 1) + s <= |pre + EncodedRows(img, n)|
      && (pre + EncodedRows(img, n))[RowStart(s, n - 1)..RowStart(s, n - 1) + s]
         == EncodeRow(img.pixels[img.height - n], img.width, s)
  {
    var s := Stride(img.width);
    var prev := pre + EncodedRows(img, n - 1);
    var last := EncodeRow(img.pixels[img.height - n], img.width, s);
    EncodedRowsSpan(img, n - 1);
    assert EncodedRows(img, n) == EncodedRows(img, n - 1) + last;
    ConcatAssoc(pre, EncodedRows(img, n - 1), last);
    assert RowStart(s, n - 1) == |prev| && RowStart(s, n - 1) + s == |prev| + |last|;
    SliceOfSuffix(prev, last);
  }

  /** Appending row `n` does not move the bytes before it. */
  lemma EncodedRowsPrefix(pre: seq<byte>, img: Image, n: nat, lo: nat, hi: nat)
    requires img.Valid() && 0 < n <= img.height
    requires lo <= hi <= |pre + EncodedRows(img, n - 1)|
    ensures hi <= |pre + EncodedRows(img, n)|
    ensures (pre + EncodedRows(img, n))[lo..hi] == (pre + EncodedRows(img, n - 1))[lo..hi]
  {
    var last := EncodeRow(img.pixels[img.height - n], img.width, Stride(img.width));
    assert EncodedRows(img, n) == EncodedRows(img, n - 1) + last;
    ConcatAssoc(pre, EncodedRows(img, n - 1), last);
    SliceOfPrefix(pre + EncodedRows(img, n - 1), last, lo, hi);
  }

  /** After a 54-byte prefix, the first `n` encoded rows put image row
      `height - 1 - k` at the offset of on-disk row `k`. */
  lemma {:induction false} EncodedRowsRow(pre: seq<byte>, img: Image, n: nat, k: nat)
    requires |pre| == HEADERS_SIZE && img.Valid() && k < n <= img.height
    ensures var s := Stride(img.width);
      && RowStart(s, k) + s <= |pre + EncodedRows(img, n)|
      && (pre + EncodedRows(img, n))[RowStart(s, k)..RowStart(s, k) + s]
         == EncodeRow(img.pixels[img.height - 1 - k], img.width, s)
  {
    if k == n - 1 {
      EncodedRowsLast(pre, img, n);
    } else {
      var s := Stride(img.width);
      EncodedRowsRow(pre, img, n - 1, k);
      EncodedRowsPrefix(pre, img, n, RowStart(s, k), RowStart(s, k) + s);
    }
  }

  /** On-disk row `k` of the encoding holds image row `height - 1 - k`:
      the rows are written bottom-up. */
  lemma EncodedRowAt(img: Image, k: nat)
    requires Encodable(img) && k < img.height
    ensures RowStart(Stride(img.width), k) + Stride(img.width) <= |Encode(img)|
    ensures DiskRow(Encode(img), k, Stride(img.width))
         == EncodeRow(img.pixels[img.height - 1 - k], img.width, Stride(img.width))
  {
    var headers := FileHeaderBytes(FileHeaderFor(img)) + InfoHeaderBytes(InfoHeaderFor(img));
    EncodedRowsRow(headers, img, img.height, k);
    assert Encode(img) == headers + EncodedRows(img, img.height);
  }

  /** The bytes of on-disk row `k`, which starts at offset `54 + stride * k`:
      pixel `x` of image row `height - 1 - k` as blue, green, red, and zero
      in every padding byte. */
  lemma EncodedRowBytes(img: Image, k: nat)
    requires Encodable(img) && k < img.height
    ensures var s := Stride(img.width);
      && RowStart(s, k) == HEADERS_SIZE + s * k
      && RowStart(s, k) + s <= |Encode(img)|
      && var row, line := DiskRow(Encode(img), k, s), img.pixels[img.height - 1 - k];
      && (forall x :: 0 <= x < img.width ==>
            row[3 * x] == line[x].b && row[3 * x + 1] == line[x].g && row[3 * x + 2] == line[x].r)
      && (forall i :: 3 * img.width <= i < s ==> row[i] == 0)
  {
    RowStartValue(Stride(img.width), k);
    EncodedRowAt(img, k);
    EncodeRowLayout(img.pixels[img.height - 1 - k], img.width, Stride(img.width));
  }

  // ---------------------------------------------------------------------
  // Decoder gate

  /** Decoding succeeds exactly when the input holds both headers, they pass
      the eight checks of `Supported`, and all `height` rows of `stride`
      bytes follow them; the image is then `Stride(width) / 3` wide and
      `height` tall, and every column at or past `width` is black. */
  lemma DecodeSucceedsIff(data: seq<byte>)
    ensures Decode(data).Some? <==>
      && |data| >= HEADERS_SIZE
      && var fh, ih := ParseFileHeader(data, 0), ParseInfoHeader(data, FILE_HEADER_SIZE);
      && Supported(fh, ih)
      && |data| >= HEADERS_SIZE + Stride(ih.biWidth) * ih.biHeight
    ensures Decode(data).Some? ==>
      var ih, img := ParseInfoHeader(data, FILE_HEADER_SIZE), Decode(data).value;
      && img.width == Stride(ih.biWidth) / 3
      && img.height == ih.biHeight
      && forall y, x :: 0 <= y < img.height && ih.biWidth <= x < img.width ==>
           img.pixels[y][x] == Black
  {
    if |data| >= HEADERS_SIZE {
      var ih := ParseInfoHeader(data, FILE_HEADER_SIZE);
      if ih.biWidth > 0 && ih.biHeight > 0 {
        RowStartValue(Stride(ih.biWidth), ih.biHeight);
      }
      if Decode(data).Some? {
        var w: nat, h: nat, s := ih.biWidth, ih.biHeight, Stride(ih.biWidth);
        var img := Decode(data).value;
        assert img.pixels == DecodeRows(data, w, h, s);
        forall y, x | 0 <= y < h && w <= x < s / 3
          ensures img.pixels[y][x] == Black
        {
          DecodeRowsAt(data, w, h, s, y);
        }
      }
    }
  }

  /** Decoding fails on any input shorter than the two headers. */
  lemma DecodeRejectsShortHeader(data: seq<byte>)
    requires |data| < HEADERS_SIZE
    ensures Decode(data) == None
  {
  }

  /** Decoding fails when any one of the eight header checks fails. */
  lemma DecodeRejectsUnsupported(data: seq<byte>)
    requires |data| >= HEADERS_SIZE
    requires !Supported(ParseFileHeader(data, 0), ParseInfoHeader(data, FILE_HEADER_SIZE))
    ensures Decode(data) == None
  {
  }

  /** Two inputs with the same first 54 bytes have the same headers. */
  lemma SameHeaderBytes(a: seq<byte>, b: seq<byte>)
    requires |a| >= HEADERS_SIZE && |b| >= HEADERS_SIZE && a[..HEADERS_SIZE] == b[..HEADERS_SIZE]
    ensures ParseFileHeader(a, 0) == ParseFileHeader(b, 0)
    ensures ParseInfoHeader(a, FILE_HEADER_SIZE) == ParseInfoHeader(b, FILE_HEADER_SIZE)
  {
    FileHeaderBytesOfParse(a, 0);
    InfoHeaderBytesOfParse(a, FILE_HEADER_SIZE);
    assert a[0..FILE_HEADER_SIZE] == b[0..FILE_HEADER_SIZE];
    assert a[FILE_HEADER_SIZE..HEADERS_SIZE] == b[FILE_HEADER_SIZE..HEADERS_SIZE];
    FileHeaderRoundTrip(ParseFileHeader(a, 0), b, 0);
    InfoHeaderRoundTrip(ParseInfoHeader(a, FILE_HEADER_SIZE), b, FILE_HEADER_SIZE);
  }

  /** Any strict prefix of an encoded file fails to decode: no partially
      filled image is ever returned. */
  lemma TruncatedEncodingRejected(img: Image, n: nat)
    requires Encodable(img) && n < |Encode(img)|
    ensures Decode(Encode(img)[..n]) == None
  {
    var e := Encode(img);
    if n >= HEADERS_SIZE {
      assert e[..n][..HEADERS_SIZE] == e[..HEADERS_SIZE];
      SameHeaderBytes(e[..n], e);
      EncodeHeaderFields(img);
    }
  }

  // ---------------------------------------------------------------------
  // What the decoder ignores

  /** Two inputs agree on everything the decoder looks at in the pixel
      data: whether all `h` rows are present, and the first `3 * w` bytes
      of every row both hold. */
  predicate SameRows(a: seq<byte>, b: seq<byte>, w: nat, h: nat) {
    var s := Stride(w);
    && (RowStart(s, h) <= |a| <==> RowStart(s, h) <= |b|)
    && forall k, i ::
         (0 <= k < h && 0 <= i < 3 * w && RowStart(s, k) + s <= |a| && RowStart(s, k) + s <= |b|)
         ==> DiskRow(a, k, s)[i] == DiskRow(b, k, s)[i]
  }

  /** The decoder reads only the checked header fields, the width, the
      height and the pixel bytes of each row: inputs that agree on those
      decode alike. */
  lemma DecodeAgree(a: seq<byte>, b: seq<byte>)
    requires |a| >= HEADERS_SIZE && |b| >= HEADERS_SIZE
    requires var fa, ia := ParseFileHeader(a, 0), ParseInfoHeader(a, FILE_HEADER_SIZE);
      var fb, ib := ParseFileHeader(b, 0), ParseInfoHeader(b, FILE_HEADER_SIZE);
      && Supported(fa, ia) == Supported(fb, ib)
      && (Supported(fa, ia) ==>
            && ia.biWidth == ib.biWidth && ia.biHeight == ib.biHeight
            && SameRows(a, b, ia.biWidth, ia.biHeight))
    ensures Decode(a) == Decode(b)
  {
    var fa, ia := ParseFileHeader(a, 0), ParseInfoHeader(a, FILE_HEADER_SIZE);
    if Supported(fa, ia) {
      var w: nat, h: nat := ia.biWidth, ia.biHeight;
      var s := Stride(w);
      if RowStart(s, h) <= |a| {
        forall y | 0 <= y < h
          ensures DecodeRows(a, w, h, s)[y] == DecodeRows(b, w, h, s)[y]
        {
          var k := h - 1 - y;
          DecodeRowsAt(a, w, h, s, y);
          DecodeRowsAt(b, w, h, s, y);
          var ra, rb := DiskRow(a, k, s), DiskRow(b, k, s);
          assert forall i :: 0 <= i < 3 * w ==> ra[i] == rb[i];
        }
        assert DecodeRows(a, w, h, s) == DecodeRows(b, w, h, s);
        assert Decode(a) == Some(Image(s / 3, h, DecodeRows(a, w, h, s)));
      }
    }
  }

  /** Rewriting the headers with other values of the fields the decoder
      does not check (`bfSize`, `bfReserved`, `biSizeImage`, both
      resolutions, `biClrUsed`, `biClrImportant`) leaves the result alone. */
  lemma DecodeIgnoresUnusedHeaderFields(data: seq<byte>, fh: FileHeader, ih: InfoHeader)
    requires |data| >= HEADERS_SIZE
    requires var fh0, ih0 := ParseFileHeader(data, 0), ParseInfoHeader(data, FILE_HEADER_SIZE);
      && fh.bfType == fh0.bfType && fh.bfOffBits == fh0.bfOffBits
      && ih.biSize == ih0.biSize && ih.biWidth == ih0.biWidth && ih.biHeight == ih0.biHeight
      && ih.biPlanes == ih0.biPlanes && ih.biBitCount == ih0.biBitCount
      && ih.biCompression == ih0.biCompression
    ensures Decode(FileHeaderBytes(fh) + InfoHeaderBytes(ih) + data[HEADERS_SIZE..]) == Decode(data)
  {
    var d := FileHeaderBytes(fh) + InfoHeaderBytes(ih) + data[HEADERS_SIZE..];
    assert d[0..FILE_HEADER_SIZE] == FileHeaderBytes(fh);
    assert d[FILE_HEADER_SIZE..FILE_HEADER_SIZE + INFO_HEADER_SIZE] == InfoHeaderBytes(ih);
    FileHeaderRoundTrip(fh, d, 0);
    InfoHeaderRoundTrip(ih, d, FILE_HEADER_SIZE);
    if ih.biWidth > 0 && ih.biHeight > 0 {
      var w: nat, h: nat := ih.biWidth, ih.biHeight;
      var s := Stride(w);
      forall k, i | 0 <= k < h && 0 <= i < 3 * w
          && RowStart(s, k) + s <= |d| && RowStart(s, k) + s <= |data|
        ensures DiskRow(d, k, s)[i] == DiskRow(data, k, s)[i]
      {
        RowStartAfterHeaders(s, k);
        assert d[RowStart(s, k) + i] == data[RowStart(s, k) + i];
      }
    }
    DecodeAgree(d, data);
  }

  /** Where in the file a pixel byte and a padding byte lie: never at the
      same offset. */
  lemma PixelNotPadding(s: nat, k1: nat, i1: nat, k2: nat, i2: nat)
    requires i1 < i2 < s
    ensures RowStart(s, k1) + i1 != RowStart(s, k2) + i2
  {
    if k1 < k2 {
      RowStartMonotone(s, k1, k2);
    } else if k2 < k1 {
      RowStartMonotone(s, k2, k1);
    }
  }

  /** Overwriting a padding byte (byte `i >= 3 * width` of on-disk row `k`)
      leaves the result alone. */
  lemma DecodeIgnoresPadding(data: seq<byte>, k: nat, i: nat, v: byte)
    requires |data| >= HEADERS_SIZE
    requires var w := ParseInfoHeader(data, FILE_HEADER_SIZE).biWidth;
      && w > 0 && 3 * w <= i < Stride(w)
      && RowStart(Stride(w), k) + i < |data|
    ensures var w := ParseInfoHeader(data, FILE_HEADER_SIZE).biWidth;
      Decode(data[RowStart(Stride(w), k) + i := v]) == Decode(data)
  {
    var w: nat := ParseInfoHeader(data, FILE_HEADER_SIZE).biWidth;
    var s := Stride(w);
    var p := RowStart(s, k) + i;
    var d := data[p := v];
    RowStartAfterHeaders(s, k);
    assert d[..HEADERS_SIZE] == data[..HEADERS_SIZE];
    SameHeaderBytes(d, data);
    var h := ParseInfoHeader(data, FILE_HEADER_SIZE).biHeight;
    if h > 0 {
      PaddingLeavesRows(data, w, h, k, i, v);
    }
    DecodeAgree(d, data);
  }

  /** Overwriting a padding byte leaves the pixel bytes of every row alone. */
  lemma PaddingLeavesRows(data: seq<byte>, w: nat, h: nat, k: nat, i: nat, v: byte)
    requires 3 * w <= i < Stride(w) && RowStart(Stride(w), k) + i < |data|
    ensures SameRows(data[RowStart(Stride(w), k) + i := v], data, w, h)
  {
    var s := Stride(w);
    var d := data[RowStart(s, k) + i := v];
    forall k', i' | 0 <= k' < h && 0 <= i' < 3 * w
        && RowStart(s, k') + s <= |d| && RowStart(s, k') + s <= |data|
      ensures DiskRow(d, k', s)[i'] == DiskRow(data, k', s)[i']
    {
      PixelNotPadding(s, k', i', k, i);
      assert d[RowStart(s, k') + i'] == data[RowStart(s, k') + i'];
    }
  }

  /** Bytes after the last pixel row do not change a successful decode. */
  lemma DecodeIgnoresTrailingBytes(data: seq<byte>, extra: seq<byte>)
    requires Decode(data).Some?
    ensures Decode(data + extra) == Decode(data)
  {
    var d := data + extra;
    assert d[..HEADERS_SIZE] == data[..HEADERS_SIZE];
    SameHeaderBytes(d, data);
    var ih := ParseInfoHeader(data, FILE_HEADER_SIZE);
    var w: nat, h: nat := ih.biWidth, ih.biHeight;
    TrailingBytesLeaveRows(data, extra, w, h);
    DecodeAgree(d, data);
  }

  /** Appending bytes leaves the pixel bytes of every complete row alone. */
  lemma TrailingBytesLeaveRows(data: seq<byte>, extra: seq<byte>, w: nat, h: nat)
    requires RowStart(Stride(w), h) <= |data|
    ensures SameRows(data + extra, data, w, h)
  {
    var s := Stride(w);
    var d := data + extra;
    forall k, i | 0 <= k < h && 0 <= i < 3 * w
        && RowStart(s, k) + s <= |d| && RowStart(s, k) + s <= |data|
      ensures DiskRow(d, k, s)[i] == DiskRow(data, k, s)[i]
    {
      assert d[RowStart(s, k) + i] == data[RowStart(s, k) + i];
    }
  }

  // ---------------------------------------------------------------------
  // Round trip

  /** `img` as the decoder gives it back: `iw` pixels wide, its own pixels
      in the first `width` columns and black in the rest. */
  function Widened(img: Image, iw: nat): (r: Image)
    requires img.Valid() && img.width <= iw
    ensures r.Valid() && r.width == iw && r.height == img.height
    ensures forall y, x :: 0 <= y < img.height && 0 <= x < img.width ==>
      r.pixels[y][x] == img.pixels[y][x]
    ensures forall y, x :: 0 <= y < img.height && img.width <= x < iw ==>
      r.pixels[y][x] == Black
  {
    Image(iw, img.height, seq(img.height, y requires 0 <= y < img.height =>
      seq(iw, x requires 0 <= x < iw => if x < img.width then img.pixels[y][x] else Black)))
  }

  /** Decoding an encoded row recovers its first `w` pixels: the blue,
      green, red order of the file and the red, green, blue order of the
      image cancel out; the columns past `w` come back black. */
  lemma DecodeRowOfEncodeRow(line: seq<Color>, w: nat, stride: nat, iw: nat)
    requires w <= |line| && 3 * w <= stride
    ensures forall x :: 0 <= x < iw ==>
      DecodeRow(EncodeRow(line, w, stride), w, iw)[x] == if x < w then line[x] else Black
  {
    EncodeRowLayout(line, w, stride);
  }

  /** Image row `y` decoded from the encoding is image row `y` widened. */
  lemma DecodedRowOfEncoding(img: Image, y: nat)
    requires Encodable(img) && y < img.height
    ensures 3 * img.width <= Stride(img.width)
    ensures RowStart(Stride(img.width), img.height) <= |Encode(img)|
    ensures DecodeRows(Encode(img), img.width, img.height, Stride(img.width))[y]
         == Widened(img, Stride(img.width) / 3).pixels[y]
  {
    var k := img.height - 1 - y;
    EncodedRowAt(img, k);
    assert DiskRow(Encode(img), k, Stride(img.width)) == EncodeRow(img.pixels[y], img.width, Stride(img.width));
    DecodedRowOfEncodedRow(Encode(img), img, Stride(img.width), y);
  }

  /** Where on-disk row `height - 1 - y` holds image row `y` encoded, image
      row `y` decodes to that row widened. */
  lemma DecodedRowOfEncodedRow(data: seq<byte>, img: Image, s: nat, y: nat)
    requires img.Valid() && y < img.height && 3 * img.width <= s && RowStart(s, img.height) <= |data|
    requires RowStart(s, img.height - 1 - y) + s <= |data|
    requires DiskRow(data, img.height - 1 - y, s) == EncodeRow(img.pixels[y], img.width, s)
    ensures DecodeRows(data, img.width, img.height, s)[y] == Widened(img, s / 3).pixels[y]
  {
    DecodeRowsAt(data, img.width, img.height, s, y);
    var line := DecodeRow(EncodeRow(img.pixels[y], img.width, s), img.width, s / 3);
    DecodeRowOfEncodeRow(img.pixels[y], img.width, s, s / 3);
    var wide := Widened(img, s / 3).pixels[y];
    assert forall x :: 0 <= x < s / 3 ==> line[x] == wide[x];
    assert line == wide;
  }

  /** Decoding what the encoder wrote gives back the image, widened to
      `Stride(width) / 3` columns. */
  lemma RoundTrip(img: Image)
    requires Encodable(img) && img.width > 0 && img.height > 0
    ensures Decode(Encode(img)) == Some(Widened(img, Stride(img.width) / 3))
  {
    var e := Encode(img);
    var w, h, s := img.width, img.height, Stride(img.width);
    EncodeHeaderFields(img);
    var wide := Widened(img, s / 3);
    forall y | 0 <= y < h ensures DecodeRows(e, w, h, s)[y] == wide.pixels[y] {
      DecodedRowOfEncoding(img, y);
    }
    assert DecodeRows(e, w, h, s) == wide.pixels;
  }

  /** For every width with `width % 4 != 3` the round trip is exact. */
  lemma RoundTripExact(img: Image)
    requires Encodable(img) && img.width > 0 && img.height > 0 && img.width % 4 != 3
    ensures Decode(Encode(img)) == Some(img)
  {
    RoundTrip(img);
    StrideOverThree(img.width);
    var wide := Widened(img, img.width);
    forall y | 0 <= y < img.height ensures wide.pixels[y] == img.pixels[y] {
      assert forall x :: 0 <= x < img.width ==> wide.pixels[y][x] == img.pixels[y][x];
    }
    assert wide.pixels == img.pixels;
    assert wide == img;
  }

  /** When `width % 4 == 3` the decoded image has one extra, black column. */
  lemma RoundTripExtraColumn(img: Image)
    requires Encodable(img) && img.width > 0 && img.height > 0 && img.width % 4 == 3
    ensures Decode(Encode(img)).Some?
    ensures var r := Decode(Encode(img)).value;
      && r.width == img.width + 1 && r.height == img.height
      && (forall y, x :: 0 <= y < img.height && 0 <= x < img.width ==>
            r.pixels[y][x] == img.pixels[y][x])
      && (forall y :: 0 <= y < img.height ==> r.pixels[y][img.width] == Black)
  {
    RoundTrip(img);
    StrideOverThree(img.width);
  }

  /** A 2 by 2 image: red, green on top of blue, white. */
  const TwoByTwo: Image :=
    Image(2, 2, [[Color(255, 0, 0), Color(0, 255, 0)], [Color(0, 0, 255), Color(255, 255, 255)]])

  /** Its bottom row on disk: blue, then white, then two bytes of padding. */
  lemma TwoByTwoBottomRow()
    ensures EncodeRow(TwoByTwo.pixels[1], 2, 8) == [255, 0, 0, 255, 255, 255, 0, 0]
  {
    var r := EncodeRow(TwoByTwo.pixels[1], 2, 8);
    assert r[0] == 255 && r[1] == 0 && r[2] == 0 && r[3] == 255;
    assert r[4] == 255 && r[5] == 255 && r[6] == 0 && r[7] == 0;
  }

  /** Its top row on disk: red, then green, each stored blue first. */
  lemma TwoByTwoTopRow()
    ensures EncodeRow(TwoByTwo.pixels[0], 2, 8) == [0, 0, 255, 0, 255, 0, 0, 0]
  {
    var r := EncodeRow(TwoByTwo.pixels[0], 2, 8);
    assert r[0] == 0 && r[1] == 0 && r[2] == 255 && r[3] == 0;
    assert r[4] == 255 && r[5] == 0 && r[6] == 0 && r[7] == 0;
  }

  /** Its file is 70 bytes: the headers, then the bottom row, then the top
      row. */
  lemma TwoByTwoEncoding()
    ensures Encodable(TwoByTwo)
    ensures |Encode(TwoByTwo)| == 70
    ensures Encode(TwoByTwo)[HEADERS_SIZE..]
         == [255, 0, 0, 255, 255, 255, 0, 0, 0, 0, 255, 0, 255, 0, 0, 0]
  {
    var img := TwoByTwo;
    assert Stride(2) == 8;
    RowStartValue(8, 2);
    TwoByTwoBottomRow();
    TwoByTwoTopRow();
    assert EncodedRows(img, 2) == EncodedRows(img, 1) + EncodeRow(img.pixels[0], 2, 8);
    var headers := FileHeaderBytes(FileHeaderFor(img)) + InfoHeaderBytes(InfoHeaderFor(img));
    assert Encode(img) == headers + EncodedRows(img, 2);
    SliceOfSuffix(headers, EncodedRows(img, 2));
  }

  /** Its file decodes back to it. */
  lemma TwoByTwoRoundTrip()
    ensures Encodable(TwoByTwo) && Decode(Encode(TwoByTwo)) == Some(TwoByTwo)
  {
    assert Stride(2) == 8;
    RoundTripExact(TwoByTwo);
  }
}
