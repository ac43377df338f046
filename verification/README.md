# Glyph bitmaps for multi-channel signed distance fields

This project models the integer core of `src/glyph_bitmap.rs` in Dafny and
proves properties of that model. The module renders one font glyph into an
MTSDF bitmap and blits that bitmap into a larger atlas. It has three parts:

- **`GlyphBitmap`** (module `Bitmap`). This is a row-major buffer of packed
  32-bit pixels with a `width` and a `height`. It has three operations:
  - a zero-filled constructor;
  - the rectangular blit `copy_to`, which panics when the source does not
    fit at the requested offset;
  - the raw byte view `data_bytes`.
- **Pixel packing** (module `Pixels`). Four 8-bit channels are packed as
  `r << 24 | g << 16 | b << 8 | a`.
- **`GlyphShape`** (module `Shape`). This part covers:
  - the bitmap size rule `max(ceil(extent * px_per_unit) + 8, 16)`;
  - the two construction errors (no outline, framing failed);
  - `generate`, which packs the rendered distance field into a
    `GlyphBitmap` of the shape's size.

`Grid` holds the arithmetic of row-major indexing (`row * width + col`).
`Wrappers` holds `Option` and `Result`.

Modelling decisions:

- The bitmap is an immutable datatype, `GlyphBitmap(data, width, height)`.
  `Valid()` states the invariant `|data| == width * height`.
- `copy_to` borrows `dst` mutably. The model's `Bitmap.CopyTo` method instead
  takes `dst` as a value and returns the updated copy. It runs the same row
  loop with the same two cursors as the source.
- The panic is the `OutOfBounds` outcome.
- `Bitmap.Blit` is an independent, pixel-by-pixel reference definition of
  the blit. `CopyTo` is proved equal to it.
- Widths, heights and offsets are `nat`. Pixels are `bv32` and channels are
  `bv8`.
- Everything computed outside the module's integer logic arrives as a
  parameter:
  - the font face's outline, as its scaled and ceiled extent, or `None`;
  - the auto-framing routine, as a function from bitmap size to an optional
    framing;
  - the rendered distance field, as the channel bytes of each pixel.
- Rust stores `u32` words in native byte order, which the model cannot
  know. `DataBytes` therefore takes the byte order as a parameter.

## Model

| member | source | states |
|---|---|---|
| `Bitmap.New` | src/glyph_bitmap.rs:112-118 | The new bitmap has the requested width and height and a buffer of exactly `width * height` pixels. Every pixel is 0. |
| `Bitmap.PixelsDetermineBitmap` | src/glyph_bitmap.rs:105-109 | A bitmap is fully described by its size and its pixels at (row, col). The row-major buffer holds nothing else. |
| `Bitmap.Blit` | src/glyph_bitmap.rs:129-143 | Reference meaning of a blit that fits. The size of `dst` is kept. Every pixel inside `[x, x+src.width) × [y, y+src.height)` becomes the source pixel at (row − y, col − x). Every other pixel of `dst` is unchanged. |
| `Bitmap.CopyTo` | src/glyph_bitmap.rs:129-143 | It fails (the panic) exactly when `src.width + x > dst.width` or `src.height + y > dst.height`, and never truncates. Otherwise the result is exactly `Blit(src, dst, x, y)`: the rectangle is copied and nothing else changes. |
| `Bitmap.CopyRowStep` | src/glyph_bitmap.rs:134-142 | One iteration of the row loop. Given the source cursor at `i * src.width`, the destination cursor at `(y + i) * dst.width + x`, and both slices inside their buffers (which `CopyTo` establishes), splicing source row `i` at the destination cursor changes exactly the pixels of destination row `y + i` in columns `[x, x + src.width)`. |
| `Bitmap.BlitIntoBlank` | src/glyph_bitmap.rs:129-143 | Blitting into a fresh zero bitmap gives the source inside the rectangle and zero everywhere else. |
| `Bitmap.BlitFullCover` | src/glyph_bitmap.rs:129-143 | Blitting at (0, 0) onto a destination of the same size gives the source itself. |
| `Bitmap.BlitIdempotent` | src/glyph_bitmap.rs:129-143 | Repeating the same blit changes nothing more. |
| `Bitmap.BlitsCommute` | src/glyph_bitmap.rs:129-143 | Two blits into disjoint rectangles of an atlas can be done in either order with the same result. |
| `Bitmap.DataBytes` | src/glyph_bitmap.rs:120-127 | The byte view has four bytes per pixel of the buffer. For a valid bitmap that is `4 * width * height` bytes. |
| `Bitmap.WordBytes` | src/glyph_bitmap.rs:121-125 | One `u32` pixel occupies exactly four bytes of memory, laid out in the machine's byte order. |
| `Bitmap.DataBytesRoundTrip` | src/glyph_bitmap.rs:120-127 | Reading 32-bit words back from the byte view, in the same byte order, gives the pixel buffer back. The view loses nothing. |
| `Bitmap.WordsBytesAt` | src/glyph_bitmap.rs:120-127 | Word `i` of the buffer occupies bytes `4i` to `4i+3` of the byte view, with no gaps and no reordering between pixels. |
| `Bitmap.DataBytesChannels` | src/glyph_bitmap.rs:120-127 | The four bytes of pixel `i` are its channels, each read by shift and mask. A big-endian machine gives R, G, B, A and a little-endian one gives A, B, G, R. |
| `Pixels.Pack` | src/glyph_bitmap.rs:93 | The packing closure, which ors together `r << 24`, `g << 16`, `b << 8` and `a`. From the packed word, shifting right by 24, 16, 8 or 0 and masking with `0xFF` gives back r, g, b or a. |
| `Pixels.PackChannels` | src/glyph_bitmap.rs:93 | The same recovery as a lemma about `Pack`: each channel comes back by shifting right by its place and masking with `0xFF`. |
| `Pixels.UnpackPack` | src/glyph_bitmap.rs:88-94 | Unpacking a packed pixel gives back its four channels. |
| `Pixels.PackUnpack` | src/glyph_bitmap.rs:88-94 | Every 32-bit word is the packing of its own four channels, so packing is onto. |
| `Pixels.PackInjective` | src/glyph_bitmap.rs:88-94 | Different channel tuples never pack to the same word. |
| `Pixels.PackIsWeightedSum` | src/glyph_bitmap.rs:93 | The packed word equals `r·2^24 + g·2^16 + b·2^8 + a` in 32-bit arithmetic, so or-ing the disjoint bytes is adding them. No step wraps: each scaled channel shifts back to the channel, and each partial sum is at least the one before it. |
| `Shape.PaddedSide` | src/glyph_bitmap.rs:47-50 | The side is at least 16 and at least the ceiled extent plus 8. It is one of those two values. |
| `Shape.PaddedSideExact` | src/glyph_bitmap.rs:47-50 | The side equals extent + 8 exactly when the extent is at least 8. An extent of at most 8 gives the floor of 16. |
| `Shape.PaddedSideMonotone` | src/glyph_bitmap.rs:47-50 | A larger extent never gets a smaller side. |
| `Shape.NewShape` | src/glyph_bitmap.rs:41-71 | A missing outline gives `GlyphShapeError(glyph)`, and only a missing outline does. Success happens exactly when there is an outline and auto-framing succeeds for the padded size. On success the width and height are the padded-and-floored extents (at least 16) and the framing is the one auto-framing returned. An `AutoFraming` error carries the glyph and the padded size that framing refused. |
| `Shape.Generate` | src/glyph_bitmap.rs:74-102 | The generated bitmap is valid and its width and height are exactly the shape's precomputed width and height. |
| `Shape.GenerateKeepsChannels` | src/glyph_bitmap.rs:85-101 | Every pixel of the generated bitmap unpacks to the four channel bytes rendered for its cell, row-major. |

## Left out

- Outline extraction (`face.glyph_shape`), edge colouring, `get_bound` and `autoframe` belong to external font and distance-field libraries. Their results are inputs to `Shape.NewShape`: the ceiled extent, or `None`, and a framing oracle.
- Floating point is not modelled:
  - `px_per_unit`;
  - the product `bounds.width() * px_per_unit` and its `ceil`;
  - the `anchor` division;
  - `px_per_em`, which is only stored.
  `Shape.NewShape` takes the ceiled extent as a `nat`, and `GlyphShape` has no `anchor` or `px_per_em` field.
- `range` is a float pair passed to `autoframe` and copied into the `AutoFraming` error. `FontError.AutoFraming` does not carry it.
- MTSDF generation, sign correction and MSDF error correction are external float computations. `Shape.Generate` receives their result as the channel bytes of every pixel.
- The float-to-byte conversion `conv` is left out. The model packs bytes that have already been converted. Rust's float-to-integer `as` cast saturates, so a channel value of exactly 1.0 becomes 255, not 0.
- `Bitmap.DataBytes`: the unsafe raw-memory reinterpretation is left out. The byte order is a parameter because native order depends on the machine. Only the length, the per-pixel layout and the round trip are modelled.
- `u32` arithmetic is not modelled. `width * height`, `self.width + x`, `y * dst.width + x` and the padded side are unbounded `nat`. Where these exceed 2^32 − 1, the source wraps in release builds and panics in debug builds. The `as u32` cast of the ceiled float extent saturates, and that is not modelled either.
- `Bitmap.CopyTo` requires both bitmaps to satisfy `|data| == width * height`, the invariant `new` and `generate` establish. `GlyphBitmap`'s fields are public and `copy_to` does not check it. On such a bitmap the Rust code copies the rows it can reach, ignores extra pixels, and panics only when a touched row runs past the end of a buffer; the model does not cover that case.
- `Shape.Generate` requires one rendered pixel per cell of the shape's `width` by `height` bitmap, which the external renderer provides.
- The single edge-colouring mutation at construction is not modelled, since the shape's outline is not part of the model.
