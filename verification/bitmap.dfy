/** The glyph bitmap: a row-major buffer of packed pixels, the blit that
composites one bitmap into a larger atlas bitmap, and the byte view of the
buffer handed to a texture upload. */
module Bitmap {
  import opened Pixels
  import Grid

  /** A `width` by `height` image, one packed pixel per cell, row by row. */
  datatype GlyphBitmap = GlyphBitmap(data: seq<Word>, width: nat, height: nat) {

    /** The buffer holds exactly one pixel per cell. */
    predicate Valid() {
      |data| == width * height
    }
  }

  /** The pixel in row `row` and column `col`. */
  function Pixel(b: GlyphBitmap, row: nat, col: nat): Word
    requires b.Valid() && row < b.height && col < b.width
  {
    Grid.CellInBounds(row, col, b.width, b.height);
    b.data[row * b.width + col]
  }

  /** A zero-filled (fully transparent) bitmap of the given size. */
  function New(width: nat, height: nat): (b: GlyphBitmap)
    ensures b.Valid() && b.width == width && b.height == height
    ensures forall row, col | 0 <= row < height && 0 <= col < width :: Pixel(b, row, col) == 0
  {
    var b := GlyphBitmap(seq(width * height, _ => 0), width, height);
    assert forall row, col | 0 <= row < height && 0 <= col < width :: Pixel(b, row, col) == 0 by {
      forall row, col | 0 <= row < height && 0 <= col < width
        ensures Pixel(b, row, col) == 0
      {
        Grid.CellInBounds(row, col, width, height);
      }
    }
    b
  }

  /** Two valid bitmaps of the same size that agree on every pixel are equal. */
  lemma PixelsDetermineBitmap(a: GlyphBitmap, b: GlyphBitmap)
    requires a.Valid() && b.Valid()
    requires a.width == b.width && a.height == b.height
    requires forall row, col | 0 <= row < a.height && 0 <= col < a.width :: Pixel(a, row, col) == Pixel(b, row, col)
    ensures a == b
  {
    forall i | 0 <= i < |a.data|
      ensures a.data[i] == b.data[i]
    {
      Grid.CellOfIndex(i, a.width, a.height);
      assert Pixel(a, i / a.width, i % a.width) == Pixel(b, i / a.width, i % a.width);
    }
  }

  // ---------------------------------------------------------------------------
  // Blitting

  /** `src` placed with its top-left corner at column `x`, row `y` lies
      entirely inside `dst`. */
  predicate Fits(src: GlyphBitmap, dst: GlyphBitmap, x: nat, y: nat) {
    src.width + x <= dst.width && src.height + y <= dst.height
  }

  /** Cell (`row`, `col`) of the destination is covered by `src` placed at (`x`, `y`). */
  predicate Covered(src: GlyphBitmap, x: nat, y: nat, row: nat, col: nat) {
    y <= row < y + src.height && x <= col < x + src.width
  }

  /** The value a blit leaves at index `i` of the destination buffer. */
  function BlitAt(src: GlyphBitmap, dst: GlyphBitmap, x: nat, y: nat, i: nat): Word
    requires src.Valid() && dst.Valid() && Fits(src, dst, x, y) && i < |dst.data|
  {
    Grid.CellOfIndex(i, dst.width, dst.height);
    var row, col := i / dst.width, i % dst.width;
    if Covered(src, x, y, row, col) then Pixel(src, row - y, col - x) else dst.data[i]
  }

  /** `BlitAt`, read at the index of cell (`row`, `col`). */
  lemma BlitAtCell(src: GlyphBitmap, dst: GlyphBitmap, x: nat, y: nat, row: nat, col: nat)
    requires src.Valid() && dst.Valid() && Fits(src, dst, x, y)
    requires row < dst.height && col < dst.width
    ensures row * dst.width + col < |dst.data|
    ensures BlitAt(src, dst, x, y, row * dst.width + col)
         == if Covered(src, x, y, row, col) then Pixel(src, row - y, col - x) else Pixel(dst, row, col)
  {
    var i := row * dst.width + col;
    Grid.CellInBounds(row, col, dst.width, dst.height);
    Grid.CellOfIndex(i, dst.width, dst.height);
    Grid.CellIndexInjective(i / dst.width, i % dst.width, row, col, dst.width);
  }

  /** The reference meaning of a blit, pixel by pixel: every covered pixel
      of `dst` takes the source pixel that lands on it and every other
      pixel keeps its value. */
  function Blit(src: GlyphBitmap, dst: GlyphBitmap, x: nat, y: nat): (r: GlyphBitmap)
    requires src.Valid() && dst.Valid() && Fits(src, dst, x, y)
    ensures r.Valid() && r.width == dst.width && r.height == dst.height
    ensures forall row, col | 0 <= row < dst.height && 0 <= col < dst.width ::
      Pixel(r, row, col)
        == if Covered(src, x, y, row, col) then Pixel(src, row - y, col - x) else Pixel(dst, row, col)
  {
    var r := GlyphBitmap(seq(|dst.data|, i requires 0 <= i < |dst.data| => BlitAt(src, dst, x, y, i)), dst.width, dst.height);
    assert forall row, col | 0 <= row < dst.height && 0 <= col < dst.width ::
      Pixel(r, row, col)
        == if Covered(src, x, y, row, col) then Pixel(src, row - y, col - x) else Pixel(dst, row, col)
    by {
      forall row, col | 0 <= row < dst.height && 0 <= col < dst.width
        ensures Pixel(r, row, col)
             == if Covered(src, x, y, row, col) then Pixel(src, row - y, col - x) else Pixel(dst, row, col)
      {
        BlitAtCell(src, dst, x, y, row, col);
      }
    }
    r
  }

  /** Blitting into a fresh zero-filled bitmap leaves the source image in
      the target rectangle and zero everywhere else. */
  lemma BlitIntoBlank(src: GlyphBitmap, width: nat, height: nat, x: nat, y: nat)
    requires src.Valid() && Fits(src, New(width, height), x, y)
    ensures forall row, col | 0 <= row < height && 0 <= col < width ::
      Pixel(Blit(src, New(width, height), x, y), row, col)
        == if Covered(src, x, y, row, col) then Pixel(src, row - y, col - x) else 0
  {
  }

  /** Blitting a bitmap over a same-sized destination at the origin replaces
      it by the source. */
  lemma BlitFullCover(src: GlyphBitmap, dst: GlyphBitmap)
    requires src.Valid() && dst.Valid() && src.width == dst.width && src.height == dst.height
    ensures Blit(src, dst, 0, 0) == src
  {
    PixelsDetermineBitmap(Blit(src, dst, 0, 0), src);
  }

  /** Blitting the same bitmap to the same place twice is blitting it once. */
  lemma BlitIdempotent(src: GlyphBitmap, dst: GlyphBitmap, x: nat, y: nat)
    requires src.Valid() && dst.Valid() && Fits(src, dst, x, y)
    ensures Blit(src, Blit(src, dst, x, y), x, y) == Blit(src, dst, x, y)
  {
    var once := Blit(src, dst, x, y);
    PixelsDetermineBitmap(Blit(src, once, x, y), once);
  }

  /** The rectangles covered by `a` at (`xa`, `ya`) and by `b` at (`xb`, `yb`)
      share no cell. */
  predicate Disjoint(a: GlyphBitmap, xa: nat, ya: nat, b: GlyphBitmap, xb: nat, yb: nat) {
    xa + a.width <= xb || xb + b.width <= xa || ya + a.height <= yb || yb + b.height <= ya
  }

  /** Glyphs blitted into disjoint rectangles of an atlas do not disturb one
      another: the order of the two blits does not matter. */
  lemma BlitsCommute(a: GlyphBitmap, xa: nat, ya: nat, b: GlyphBitmap, xb: nat, yb: nat, dst: GlyphBitmap)
    requires a.Valid() && b.Valid() && dst.Valid()
    requires Fits(a, dst, xa, ya) && Fits(b, dst, xb, yb)
    requires Disjoint(a, xa, ya, b, xb, yb)
    ensures Blit(a, Blit(b, dst, xb, yb), xa, ya) == Blit(b, Blit(a, dst, xa, ya), xb, yb)
  {
    PixelsDetermineBitmap(Blit(a, Blit(b, dst, xb, yb), xa, ya), Blit(b, Blit(a, dst, xa, ya), xb, yb));
  }

  /** What `copy_to` leaves behind: the updated destination, or the panic
      raised when the source does not fit. */
  datatype CopyOutcome = Copied(dst: GlyphBitmap) | OutOfBounds

  /** Copies `src` into `dst` with its top-left corner at column `x`, row `y`,
      one row of `src.width` pixels at a time, moving a source cursor and a
      destination cursor a row further after each copy. */
  method CopyTo(src: GlyphBitmap, dst: GlyphBitmap, x: nat, y: nat) returns (r: CopyOutcome)
    requires src.Valid() && dst.Valid()
    ensures r.OutOfBounds? <==> !Fits(src, dst, x, y)
    ensures r.Copied? ==> r.dst == Blit(src, dst, x, y)
  {
    if src.width + x > dst.width || src.height + y > dst.height {
      return OutOfBounds;
    }
    var out := dst;
    var srcCursor := 0;
    var dstCursor := y * dst.width + x;
    for i := 0 to src.height
      invariant srcCursor == i * src.width
      invariant dstCursor == (y + i) * dst.width + x
      invariant out.Valid() && out.width == dst.width && out.height == dst.height
      invariant forall row, col | 0 <= row < dst.height && 0 <= col < dst.width ::
        Pixel(out, row, col)
          == if row < y + i && Covered(src, x, y, row, col) then Pixel(src, row - y, col - x) else Pixel(dst, row, col)
    {
      Grid.RowRunInBounds(i, 0, src.width, src.width, src.height);
      Grid.RowRunInBounds(y + i, x, src.width, dst.width, dst.height);
      var next := out.(data := out.data[..dstCursor] + src.data[srcCursor..srcCursor + src.width] + out.data[dstCursor + src.width..]);
      CopyRowStep(src, dst, out, next, x, y, i, srcCursor, dstCursor);
      out := next;
      srcCursor := srcCursor + src.width;
      dstCursor := dstCursor + dst.width;
    }
    PixelsDetermineBitmap(out, Blit(src, dst, x, y));
    return Copied(out);
  }

  /** One iteration of the row loop of `CopyTo`: splicing source row `i`
      into the destination at its cursor extends the copied band by that
      row and leaves every other pixel alone. */
  lemma CopyRowStep(src: GlyphBitmap, dst: GlyphBitmap, out: GlyphBitmap, next: GlyphBitmap,
                    x: nat, y: nat, i: nat, srcCursor: nat, dstCursor: nat)
    requires src.Valid() && out.Valid() && Fits(src, dst, x, y) && i < src.height
    requires out.width == dst.width && out.height == dst.height
    requires srcCursor == i * src.width && dstCursor == (y + i) * dst.width + x
    requires srcCursor + src.width <= |src.data| && dstCursor + src.width <= |out.data|
    requires next == out.(data := out.data[..dstCursor] + src.data[srcCursor..srcCursor + src.width] + out.data[dstCursor + src.width..])
    ensures next.Valid() && next.width == out.width && next.height == out.height
    ensures forall row, col | 0 <= row < out.height && 0 <= col < out.width ::
      Pixel(next, row, col)
        == if row == y + i && Covered(src, x, y, row, col) then Pixel(src, i, col - x) else Pixel(out, row, col)
  {
    forall row, col | 0 <= row < out.height && 0 <= col < out.width
      ensures Pixel(next, row, col)
           == if row == y + i && Covered(src, x, y, row, col) then Pixel(src, i, col - x) else Pixel(out, row, col)
    {
      var k := row * out.width + col;
      Grid.CellInBounds(row, col, out.width, out.height);
      Grid.InRowRun(row, col, y + i, x, src.width, out.width);
      if dstCursor <= k < dstCursor + src.width {
        assert next.data[k] == src.data[srcCursor + (k - dstCursor)];
        assert k - dstCursor == col - x;
      } else {
        assert next.data[k] == out.data[k];
      }
    }
  }

  // ---------------------------------------------------------------------------
  // Byte view

  /** The byte order in which the machine stores a 32-bit word in memory. */
  datatype ByteOrder = LittleEndian | BigEndian

  /** The four bytes of one packed pixel as they lie in memory. */
  function WordBytes(p: Word, order: ByteOrder): (bytes: seq<bv8>)
    ensures |bytes| == 4
  {
    var c := Unpack(p);
    match order
    case LittleEndian => [c.a, c.b, c.g, c.r]
    case BigEndian => [c.r, c.g, c.b, c.a]
  }

  /** Reads one packed pixel back from its four bytes in memory. */
  function BytesWord(bytes: seq<bv8>, order: ByteOrder): Word
    requires |bytes| == 4
  {
    match order
    case LittleEndian => Pack(Rgba(bytes[3], bytes[2], bytes[1], bytes[0]))
    case BigEndian => Pack(Rgba(bytes[0], bytes[1], bytes[2], bytes[3]))
  }

  /** The pixel buffer viewed as raw bytes in the machine's byte order. */
  function DataBytes(b: GlyphBitmap, order: ByteOrder): (bytes: seq<bv8>)
    ensures |bytes| == 4 * |b.data|
    ensures b.Valid() ==> |bytes| == 4 * b.width * b.height
  {
    WordsBytes(b.data, order)
  }

  /** Lays a sequence of words out in memory, word after word. */
  function WordsBytes(words: seq<Word>, order: ByteOrder): (bytes: seq<bv8>)
    ensures |bytes| == 4 * |words|
  {
    if words == [] then [] else WordBytes(words[0], order) + WordsBytes(words[1..], order)
  }

  /** Reads a sequence of words back from memory, four bytes each. */
  function BytesWords(bytes: seq<bv8>, order: ByteOrder): (words: seq<Word>)
    requires |bytes| % 4 == 0
    ensures |words| == |bytes| / 4
  {
    if bytes == [] then [] else [BytesWord(bytes[..4], order)] + BytesWords(bytes[4..], order)
  }

  /** Reading one word back from its memory bytes gives the word. */
  lemma WordBytesRoundTrip(p: Word, order: ByteOrder)
    ensures BytesWord(WordBytes(p, order), order) == p
  {
    PackUnpack(p);
  }

  /** Laying words out in memory loses nothing: reading them back gives them. */
  lemma {:induction false} WordsBytesRoundTrip(words: seq<Word>, order: ByteOrder)
    ensures BytesWords(WordsBytes(words, order), order) == words
  {
    if words != [] {
      var bytes := WordsBytes(words, order);
      assert bytes[..4] == WordBytes(words[0], order);
      assert bytes[4..] == WordsBytes(words[1..], order);
      WordBytesRoundTrip(words[0], order);
      WordsBytesRoundTrip(words[1..], order);
    }
  }

  /** The byte view of a bitmap loses nothing: reading its words back, in
      the same byte order, gives the pixel buffer. */
  lemma DataBytesRoundTrip(b: GlyphBitmap, order: ByteOrder)
    ensures BytesWords(DataBytes(b, order), order) == b.data
  {
    WordsBytesRoundTrip(b.data, order);
  }

  /** Word `i` of a memory layout occupies bytes `4 * i` to `4 * i + 3`. */
  lemma {:induction false} WordsBytesAt(words: seq<Word>, order: ByteOrder, i: nat)
    requires i < |words|
    ensures WordsBytes(words, order)[4 * i..4 * i + 4] == WordBytes(words[i], order)
  {
    if i > 0 {
      WordsBytesAt(words[1..], order, i - 1);
      assert WordsBytes(words, order) == WordBytes(words[0], order) + WordsBytes(words[1..], order);
    }
  }

  /** The four bytes of pixel `i` in the byte view are its channels: red,
      green, blue, alpha on a big-endian machine and the reverse on a
      little-endian one. */
  lemma DataBytesChannels(b: GlyphBitmap, order: ByteOrder, i: nat)
    requires i < |b.data|
    ensures 4 * i + 4 <= |DataBytes(b, order)|
    ensures var p, bytes := b.data[i], DataBytes(b, order)[4 * i..4 * i + 4];
      && (order == BigEndian ==>
            bytes == [ChannelAt(p, Red), ChannelAt(p, Green), ChannelAt(p, Blue), ChannelAt(p, Alpha)])
      && (order == LittleEndian ==>
            bytes == [ChannelAt(p, Alpha), ChannelAt(p, Blue), ChannelAt(p, Green), ChannelAt(p, Red)])
  {
    WordsBytesAt(b.data, order, i);
  }
}
