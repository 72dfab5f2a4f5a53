# 24-bit BMP codec, modelled in Dafny

This project models the uncompressed 24-bit bitmap codec of ImgLib, found in `ImgLib/bmp_image.cpp`. A file is laid out as follows:

- a 14-byte file header;
- a 40-byte info header;
- one row of `Stride(width)` bytes per image row.

The rows run bottom-up. Each row holds blue, green and red for every pixel, then zero padding to a multiple of four bytes.

The project has five modules:

- `ByteOrder` (`byte_order.dfy`): byte, 16-bit and 32-bit integer types and their little-endian layout. Each header field is written out byte by byte, in place of the C++ packed structs and the host's byte order.
- `BmpHeaders` (`bmp_headers.dfy`):
  - `FileHeader` and `InfoHeader`, with their default field values;
  - their byte images, and the parsers that read them back.
- `Images` (`image.dfy`): the pixel grid the codec reads from and writes into. Row 0 is the top row. Each pixel is red, green, blue.
- `BmpCodec` (`bmp_codec.dfy`):
  - `Stride`;
  - the specification functions `Encode` and `Decode`;
  - the imperative `SaveBMP` and `LoadBMP`, each proved to compute exactly one of those functions.

  `SaveBMP` fills one zero-initialised row buffer (an `array<byte>`) in place, bottom row first. Only the first `3 * width` bytes of that buffer are ever overwritten. `LoadBMP` works as follows:
  - it parses the two headers;
  - it applies the eight-condition gate;
  - it reads one stride per row through a cursor, giving up on the first short read;
  - it unpacks each row into a black image `Stride(width) / 3` pixels wide.
- `BmpProperties` (`bmp_properties.dfy`) proves what the codec promises:
  - the header fields and the file length;
  - the exact position and bytes of every row;
  - the decoder's rejection rules;
  - the bytes the decoder ignores;
  - the round trip.

A failed decode, which returns an empty `Image` in the source, is `None`.

The decoder allocates its image `Stride(width) / 3` pixels wide (line 114) but fills only the first `width` columns (line 124). In Microsoft's BITMAPINFOHEADER documentation, `biWidth` is the width of the bitmap in pixels, so a decoder would be expected to return an image `width` pixels wide. The model keeps the code's behaviour instead: `Decode` returns an image `Stride(width) / 3` pixels wide. Three lemmas pin down the difference:

- `StrideOverThree` proves that the two widths differ exactly when `width % 4 == 3`;
- `RoundTripExact` proves the round trip is the identity for every other width;
- `RoundTripExtraColumn` proves that otherwise one extra black column appears.

## Model

| member | source | states |
|---|---|---|
| ByteOrder.U16RoundTrip | ImgLib/bmp_image.cpp:13-35 | a 16-bit header field written little-endian reads back as the same value |
| ByteOrder.U32RoundTrip | ImgLib/bmp_image.cpp:13-35 | a 32-bit unsigned header field written little-endian reads back as the same value |
| ByteOrder.I32RoundTrip | ImgLib/bmp_image.cpp:22-35 | a signed 32-bit field (width, height, resolution) written in two's complement reads back as the same value |
| ByteOrder.LE16OfRead | ImgLib/bmp_image.cpp:13-35 | reading two bytes as a 16-bit field and writing the field back restores those bytes |
| ByteOrder.LE32OfRead | ImgLib/bmp_image.cpp:13-35 | reading four bytes as a 32-bit field and writing the field back restores those bytes |
| ByteOrder.LE16 | ImgLib/bmp_image.cpp:13-35 | a 16-bit field occupies two bytes on disk, least significant first |
| ByteOrder.LE32 | ImgLib/bmp_image.cpp:13-35 | a 32-bit field occupies four bytes on disk, least significant first |
| ByteOrder.ReadU16 | ImgLib/bmp_image.cpp:13-35 | defined as the value of two bytes read least significant first; `U16RoundTrip` and `LE16OfRead` make it the inverse of `LE16` |
| ByteOrder.ReadU32 | ImgLib/bmp_image.cpp:13-35 | defined as the value of four bytes read least significant first; `U32RoundTrip` and `LE32OfRead` make it the inverse of `LE32` |
| ByteOrder.ReadI32 | ImgLib/bmp_image.cpp:22-35 | defined as the two's-complement reading of four bytes, for the `int32_t` fields; `I32RoundTrip` makes it the inverse of their layout |
| BmpHeaders.FileHeaderBytes | ImgLib/bmp_image.cpp:13-19 | the packed file header is exactly 14 bytes |
| BmpHeaders.InfoHeaderBytes | ImgLib/bmp_image.cpp:22-35 | the packed info header is exactly 40 bytes |
| BmpHeaders.ParseFileHeader | ImgLib/bmp_image.cpp:87 | defined as reading the four file-header fields at offsets 0, 2, 6 and 10; `FileHeaderRoundTrip` and `FileHeaderBytesOfParse` make it the inverse of `FileHeaderBytes` |
| BmpHeaders.ParseInfoHeader | ImgLib/bmp_image.cpp:93 | defined as reading the eleven info-header fields at their packed offsets; `InfoHeaderRoundTrip` and `InfoHeaderBytesOfParse` make it the inverse of `InfoHeaderBytes` |
| BmpHeaders.FileHeaderRoundTrip | ImgLib/bmp_image.cpp:13-19 | a written file header, wherever it sits in a buffer, parses back to the same header |
| BmpHeaders.InfoHeaderRoundTrip | ImgLib/bmp_image.cpp:22-35 | a written info header, wherever it sits in a buffer, parses back to the same header |
| BmpHeaders.FileHeaderBytesOfParse | ImgLib/bmp_image.cpp:84-87 | any 14 bytes are the image of the file header parsed from them, so reading a header loses nothing |
| BmpHeaders.InfoHeaderBytesOfParse | ImgLib/bmp_image.cpp:85-93 | any 40 bytes are the image of the info header parsed from them |
| Images.Filled | ImgLib/bmp_image.cpp:114 | the freshly allocated decoder image has the requested size and every pixel is the fill colour |
| BmpCodec.Stride | ImgLib/bmp_image.cpp:38-42 | the row size is a multiple of 4, at least `3 * w`, and less than `3 * w + 4` |
| BmpCodec.FileHeaderFor | ImgLib/bmp_image.cpp:51-54 | defined as the default file header with `bfSize` set to the end of the last row; `EncodeHeaderFields` states its fields |
| BmpCodec.InfoHeaderFor | ImgLib/bmp_image.cpp:52-57 | defined as the default info header with width, height and `biSizeImage = stride * height` set; `EncodeHeaderFields` states its fields |
| BmpCodec.EncodeRow | ImgLib/bmp_image.cpp:64-73 | one on-disk row is exactly `stride` bytes; `EncodeRowLayout` states its bytes |
| BmpCodec.EncodedRows | ImgLib/bmp_image.cpp:66-74 | defined as the rows written so far, image row `height - n` appended last; `EncodedRowsSpan` gives their length and `EncodedRowsRow` the position of every row |
| BmpCodec.Supported | ImgLib/bmp_image.cpp:100-108 | defined as the eight checks of the gate; `DecodeSucceedsIff` and `DecodeRejectsUnsupported` show that failing any one makes decoding fail |
| BmpCodec.DecodeRows | ImgLib/bmp_image.cpp:119-128 | the rows decoded from the first `n` on-disk rows are `n` in number; `DecodeRowsAt` states which on-disk row each comes from |
| BmpCodec.EncodeRowLayout | ImgLib/bmp_image.cpp:64-73 | an encoded row holds blue, green, red for each of the first `width` pixels and zero in every padding byte |
| BmpCodec.EncodedRowsSpan | ImgLib/bmp_image.cpp:66-74 | the first `n` rows written after the headers end exactly where on-disk row `n` starts |
| BmpCodec.Encode | ImgLib/bmp_image.cpp:45-77 | the encoder's output ends with the last row, `RowStart(stride, height)` bytes long |
| BmpCodec.RowStartValue | ImgLib/bmp_image.cpp:49-54 | on-disk row `k` starts at byte `54 + stride * k` |
| BmpCodec.RowStartMonotone | ImgLib/bmp_image.cpp:117-121 | each row ends no later than any later row starts, so reading rows in order stays inside the file |
| BmpCodec.DiskRow | ImgLib/bmp_image.cpp:120 | one read of a row takes exactly `stride` bytes |
| BmpCodec.DecodeRow | ImgLib/bmp_image.cpp:123-128 | a decoded row is as wide as the allocated image |
| BmpCodec.Decode | ImgLib/bmp_image.cpp:80-132 | a successful decode is a well-formed image with positive width and height |
| BmpCodec.DecodeRowsAt | ImgLib/bmp_image.cpp:119-128 | image row `y` of the decoded rows comes from on-disk row `height - 1 - y`, and that row lies inside the input |
| BmpCodec.DecodeRowsWidth | ImgLib/bmp_image.cpp:114 | every decoded row is `stride / 3` pixels wide |
| BmpCodec.PutDecodedRow | ImgLib/bmp_image.cpp:119-128 | storing the next decoded on-disk row at image row `y` extends the decoded rows below it by one |
| BmpCodec.SaveBMP | ImgLib/bmp_image.cpp:45-77 | the bytes written are exactly `Encode(img)` |
| BmpCodec.WritePixelRows | ImgLib/bmp_image.cpp:64-74 | the row loop over one reused zero-initialised buffer writes exactly the encoded rows, bottom row first |
| BmpCodec.FillRow | ImgLib/bmp_image.cpp:67-72 | after the pixel loop, a buffer whose padding is zero holds exactly the encoded row |
| BmpCodec.RowBufferIsEncodedRow | ImgLib/bmp_image.cpp:64-73 | a buffer holding the pixel triples in its first `3 * width` bytes and zero after them is the encoded row |
| BmpCodec.ReadBytes | ImgLib/bmp_image.cpp:120 | a read copies the next bytes at the cursor, stopping only when the buffer is full or the input has run out, and leaves the rest of the buffer as it was |
| BmpCodec.ReadRow | ImgLib/bmp_image.cpp:120-121 | a row read succeeds exactly when a whole stride remains, and the buffer then holds those bytes; on a short read it holds the remaining bytes followed by its old contents |
| BmpCodec.LoadBMP | ImgLib/bmp_image.cpp:80-132 | the result of the reading loop is exactly `Decode(data)` |
| BmpCodec.ReadPixelRows | ImgLib/bmp_image.cpp:114-129 | the row loop either fills every row with the decoded on-disk rows, when all `height` strides are present, or fails |
| BmpCodec.UnpackRow | ImgLib/bmp_image.cpp:123-128 | unpacking a buffer into a black line gives the decoded row: red, green, blue from bytes `3x+2`, `3x+1`, `3x`, with black past `width` |
| BmpProperties.StrideOverThree | ImgLib/bmp_image.cpp:112-114 | the decoder's width `Stride(w) / 3` is `w + 1` when `w % 4 == 3` and `w` otherwise |
| BmpProperties.RowStartAfterHeaders | ImgLib/bmp_image.cpp:117 | every row starts after the 54 header bytes |
| BmpProperties.EncodeHeaderFields | ImgLib/bmp_image.cpp:48-57 | the encoding is `54 + stride * height` bytes; `bfSize` at bytes 2..5 equals that length; both headers carry the fixed defaults with width, height and `biSizeImage = stride * height` filled in |
| BmpProperties.EncodedRowsLast | ImgLib/bmp_image.cpp:66-73 | the last of `n` written rows lies at the offset of on-disk row `n - 1` and holds image row `height - n` |
| BmpProperties.EncodedRowsPrefix | ImgLib/bmp_image.cpp:73 | appending a row does not change any byte written before it |
| BmpProperties.EncodedRowsRow | ImgLib/bmp_image.cpp:66-73 | after `n` written rows, the bytes at on-disk row `k` are image row `height - 1 - k` encoded |
| BmpProperties.EncodedRowAt | ImgLib/bmp_image.cpp:66-73 | on-disk row `k` of the encoding is image row `height - 1 - k` encoded |
| BmpProperties.EncodedRowBytes | ImgLib/bmp_image.cpp:64-73 | on-disk row `k` starts at `54 + stride * k` and holds b, g, r for each pixel of image row `height - 1 - k`, then zeros |
| BmpProperties.DecodeSucceedsIff | ImgLib/bmp_image.cpp:87-121 | decoding succeeds if and only if both headers are present, they pass the eight checks and `54 + stride * height` bytes are present; the image is then `stride / 3` wide, `height` tall and black from column `width` on |
| BmpProperties.DecodeRejectsShortHeader | ImgLib/bmp_image.cpp:87-97 | input shorter than the two headers fails to decode |
| BmpProperties.DecodeRejectsUnsupported | ImgLib/bmp_image.cpp:100-108 | a header failing any of the eight checks fails to decode |
| BmpProperties.SameHeaderBytes | ImgLib/bmp_image.cpp:87-93 | inputs with the same first 54 bytes parse to the same headers |
| BmpProperties.TruncatedEncodingRejected | ImgLib/bmp_image.cpp:117-121 | every strict prefix of an encoded file fails to decode, so no partially filled image is returned |
| BmpProperties.DecodeAgree | ImgLib/bmp_image.cpp:100-128 | inputs that agree on the gate, the width, the height, row availability and the pixel bytes of each row decode alike |
| BmpProperties.DecodeIgnoresUnusedHeaderFields | ImgLib/bmp_image.cpp:100-108 | rewriting `bfSize`, `bfReserved`, `biSizeImage`, the resolutions, `biClrUsed` or `biClrImportant` leaves the decode unchanged |
| BmpProperties.PixelNotPadding | ImgLib/bmp_image.cpp:124-127 | a pixel byte of one row never shares an offset with a padding byte of any row |
| BmpProperties.DecodeIgnoresPadding | ImgLib/bmp_image.cpp:124-127 | overwriting any padding byte leaves the decode unchanged |
| BmpProperties.PaddingLeavesRows | ImgLib/bmp_image.cpp:124-127 | overwriting a padding byte leaves every row's pixel bytes unchanged |
| BmpProperties.DecodeIgnoresTrailingBytes | ImgLib/bmp_image.cpp:119-121 | bytes appended after a decodable file leave the decode unchanged |
| BmpProperties.TrailingBytesLeaveRows | ImgLib/bmp_image.cpp:119-121 | appending bytes leaves the pixel bytes of every complete row unchanged |
| BmpProperties.Widened | ImgLib/bmp_image.cpp:114-127 | the widened image keeps the original pixels in the first `width` columns and is black beyond them |
| BmpProperties.DecodeRowOfEncodeRow | ImgLib/bmp_image.cpp:69-71 | decoding an encoded row recovers every one of its first `width` pixels, because the BGR and RGB reorderings cancel |
| BmpProperties.DecodedRowOfEncoding | ImgLib/bmp_image.cpp:66-73 | image row `y` decoded from the encoding is image row `y` widened |
| BmpProperties.DecodedRowOfEncodedRow | ImgLib/bmp_image.cpp:119-127 | where on-disk row `height - 1 - y` holds image row `y` encoded, image row `y` decodes to that row widened |
| BmpProperties.RoundTrip | ImgLib/bmp_image.cpp:66-73 | decoding any encodable image with positive size gives it back, widened to `stride / 3` columns with black fill |
| BmpProperties.RoundTripExact | ImgLib/bmp_image.cpp:112-127 | when `width % 4 != 3`, decoding the encoding gives back exactly the image |
| BmpProperties.RoundTripExtraColumn | ImgLib/bmp_image.cpp:112-127 | when `width % 4 == 3`, the decoded image is one column wider, keeps every original pixel and is black in the extra column |
| BmpProperties.TwoByTwoBottomRow | ImgLib/bmp_image.cpp:66-73 | the bottom row of the 2 by 2 example is written as blue, white, then two zero bytes |
| BmpProperties.TwoByTwoTopRow | ImgLib/bmp_image.cpp:66-73 | the top row of the example is written as red, then green, each blue first, then two zero bytes |
| BmpProperties.TwoByTwoEncoding | ImgLib/bmp_image.cpp:45-77 | the example encodes to 70 bytes, with its rows bottom first after the headers |
| BmpProperties.TwoByTwoRoundTrip | ImgLib/bmp_image.cpp:80-132 | the example's file decodes back to the example |

## Left out

- Opening, creating and truncating files, and stream failures are not modelled: `if (!in)` after opening, and `out.good()`. A file is a byte sequence, so `SaveBMP` returns the bytes it would write, and `LoadBMP` takes the file contents.
- `seekg` to `bfOffBits` is modelled as starting the read cursor at `bfOffBits`. The gate has already fixed that offset at 54.
- Host byte order and the `PACKED_STRUCT` memory layout are not modelled. Every field is serialised explicitly, little-endian, as a little-endian host lays it out.
- BmpCodec.Encode: requires `Encodable`, meaning the C++ `int` arithmetic `3 * width + 3` and `stride * height` must not overflow. The source's behaviour on overflow is undefined, so the model leaves it out.
- BmpCodec.Decode: computes `Stride(width)` over mathematical integers. For a header width above about 715 million, `width * 3` overflows `int` in the source; the model does not capture this.
- The alpha channel and the other internals of `Image` and `Color` are not modelled. The image is an abstract grid of red, green, blue bytes.
- `ImgConverter/main.cpp` is not part of this model, because it only handles command-line arguments, prints messages and dispatches between formats.
- The PPM and JPEG codecs are not part of this model.
