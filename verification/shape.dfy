/** The glyph shape: the bitmap size chosen for a glyph, the errors raised
while preparing it, and the conversion of its rendered distance field into
a glyph bitmap.

Outline extraction, edge colouring, bounds, auto-framing and the distance
field itself are computed by external font and distance-field libraries;
the model receives their results as inputs. */
module Shape {
  import opened Wrappers
  import opened Pixels
  import opened Bitmap
  import Grid

  /** Pixels of padding added to each side length, four on either side. */
  const Padding: nat := 8

  /** The smallest side length a glyph bitmap may have. */
  const MinSide: nat := 16

  /** Why a glyph shape could not be prepared. */
  datatype FontError =
      /** The face has no outline for the glyph. */
    | GlyphShapeError(glyph: nat)
      /** The outline's bounds could not be framed into a `width` by `height` bitmap. */
    | AutoFraming(glyph: nat, width: nat, height: nat)

  /** The outline's bounds scaled to pixels and rounded up, side by side. */
  datatype Extent = Extent(width: nat, height: nat)

  /** A glyph prepared for rendering: its bitmap size and the framing that
      maps its outline into that bitmap. */
  datatype GlyphShape<F> = GlyphShape(width: nat, height: nat, framing: F)

  /** The side length of a glyph bitmap for an extent of `ceiled` pixels:
      the extent plus padding, but never less than the minimum side. */
  function PaddedSide(ceiled: nat): (side: nat)
    ensures side >= MinSide && side >= ceiled + Padding
    ensures side == MinSide || side == ceiled + Padding
  {
    if ceiled + Padding >= MinSide then ceiled + Padding else MinSide
  }

  /** The padding is added exactly when the extent is at least eight
      pixels (the minimum side less the padding); a smaller extent gets the
      minimum side instead. */
  lemma PaddedSideExact(ceiled: nat)
    ensures PaddedSide(ceiled) == ceiled + Padding <==> ceiled >= MinSide - Padding
    ensures ceiled <= MinSide - Padding ==> PaddedSide(ceiled) == MinSide
  {
  }

  /** A larger extent never gets a smaller bitmap. */
  lemma PaddedSideMonotone(a: nat, b: nat)
    requires a <= b
    ensures PaddedSide(a) <= PaddedSide(b)
  {
  }

  /** Prepares a glyph: fails when the face has no outline for it, sizes its
      bitmap from the outline's scaled extent, and fails when the outline
      cannot be framed into a bitmap of that size. `outline` is the scaled,
      rounded-up extent of the glyph's outline, absent when the face has
      none; `autoframe` frames the outline into a bitmap of the given size. */
  function NewShape<F>(glyph: nat, outline: Option<Extent>, autoframe: (nat, nat) -> Option<F>)
    : (r: Result<GlyphShape<F>, FontError>)
    ensures outline.None? <==> r == Err(GlyphShapeError(glyph))
    ensures r.Ok? <==>
      outline.Some? && autoframe(PaddedSide(outline.value.width), PaddedSide(outline.value.height)).Some?
    ensures r.Ok? ==>
      && r.value.width >= MinSide && r.value.height >= MinSide
      && r.value.width == PaddedSide(outline.value.width)
      && r.value.height == PaddedSide(outline.value.height)
      && Some(r.value.framing) == autoframe(r.value.width, r.value.height)
    ensures r.Err? && r.error.AutoFraming? ==>
      && outline.Some? && r.error.glyph == glyph
      && r.error.width == PaddedSide(outline.value.width)
      && r.error.height == PaddedSide(outline.value.height)
      && autoframe(r.error.width, r.error.height).None?
  {
    match outline
    case None => Err(GlyphShapeError(glyph))
    case Some(extent) =>
      var width := PaddedSide(extent.width);
      var height := PaddedSide(extent.height);
      match autoframe(width, height)
      case None => Err(AutoFraming(glyph, width, height))
      case Some(framing) => Ok(GlyphShape(width, height, framing))
  }

  /** Turns the rendered distance field of a prepared glyph into a glyph
      bitmap: each pixel's four channel bytes are packed into one word.
      `field` holds those bytes row by row, one entry per bitmap cell. */
  function Generate<F>(shape: GlyphShape<F>, field: seq<Rgba>): (b: GlyphBitmap)
    requires |field| == shape.width * shape.height
    ensures b.Valid() && b.width == shape.width && b.height == shape.height
  {
    GlyphBitmap(seq(|field|, i requires 0 <= i < |field| => Pack(field[i])), shape.width, shape.height)
  }

  /** Every pixel of a generated bitmap unpacks to the channels rendered for
      its cell. */
  lemma GenerateKeepsChannels<F>(shape: GlyphShape<F>, field: seq<Rgba>)
    requires |field| == shape.width * shape.height
    ensures forall row, col | 0 <= row < shape.height && 0 <= col < shape.width ::
      row * shape.width + col < |field| &&
      Unpack(Pixel(Generate(shape, field), row, col)) == field[row * shape.width + col]
  {
    var b := Generate(shape, field);
    forall row, col | 0 <= row < shape.height && 0 <= col < shape.width
      ensures row * shape.width + col < |field|
      ensures Unpack(Pixel(b, row, col)) == field[row * shape.width + col]
    {
      Grid.CellInBounds(row, col, shape.width, shape.height);
      UnpackPack(field[row * shape.width + col]);
    }
  }
}
