/** Packed pixels of a glyph bitmap.

A pixel holds four 8-bit channels (red, green, blue, alpha; for an MTSDF
the three distance channels and the true-distance channel) packed into one
32-bit word, red in the high byte and alpha in the low byte. The channel
bytes themselves come from a float conversion that is not modelled here:
they are taken as inputs.
*/
module Pixels {

  /** One packed pixel, as stored in the bitmap buffer. */
  type Word = bv32

  /** The four channel bytes of one pixel, before packing. */
  datatype Rgba = Rgba(r: bv8, g: bv8, b: bv8, a: bv8)

  /** The channels of a pixel, named by their place in the packed word. */
  datatype Channel = Red | Green | Blue | Alpha

  /** Reads one channel of a packed word: shift right by its place, then mask the low byte. */
  function ChannelAt(p: Word, ch: Channel): bv8
  {
    match ch
    case Red => ((p >> 24) & 0xFF) as bv8
    case Green => ((p >> 16) & 0xFF) as bv8
    case Blue => ((p >> 8) & 0xFF) as bv8
    case Alpha => (p & 0xFF) as bv8
  }

  /** Packs the four channels red-high to alpha-low into one word; the
      shift and mask of `ChannelAt` read each of them back. */
  function Pack(c: Rgba): (p: Word)
    ensures ChannelAt(p, Red) == c.r && ChannelAt(p, Green) == c.g
    ensures ChannelAt(p, Blue) == c.b && ChannelAt(p, Alpha) == c.a
  {
    ((c.r as bv32) << 24) | ((c.g as bv32) << 16) | ((c.b as bv32) << 8) | (c.a as bv32)
  }

  /** Splits a packed word into its four channels by shift and mask. */
  function Unpack(p: Word): Rgba
  {
    Rgba(ChannelAt(p, Red), ChannelAt(p, Green), ChannelAt(p, Blue), ChannelAt(p, Alpha))
  }

  /** Every channel is recovered from the packed word by shift and mask. */
  lemma PackChannels(c: Rgba)
    ensures ChannelAt(Pack(c), Red) == c.r
    ensures ChannelAt(Pack(c), Green) == c.g
    ensures ChannelAt(Pack(c), Blue) == c.b
    ensures ChannelAt(Pack(c), Alpha) == c.a
  {
  }

  /** Unpacking a packed pixel gives back the channels it was packed from. */
  lemma UnpackPack(c: Rgba)
    ensures Unpack(Pack(c)) == c
  {
    PackChannels(c);
  }

  /** Every word is the packing of its own channels: packing is onto. */
  lemma PackUnpack(p: Word)
    ensures Pack(Unpack(p)) == p
  {
  }

  /** Distinct channel tuples never pack to the same word. */
  lemma PackInjective(c1: Rgba, c2: Rgba)
    ensures Pack(c1) == Pack(c2) ==> c1 == c2
  {
    UnpackPack(c1);
    UnpackPack(c2);
  }

  /** The packed word is r * 2^24 + g * 2^16 + b * 2^8 + a: the four
      shifted channels occupy disjoint bytes, so or-ing them is adding them.
      Nothing in this 32-bit sum wraps: each scaled channel shifts back to
      the channel, and each partial sum is at least the one before it
      (unsigned addition wraps exactly when the result drops below an
      addend). */
  lemma PackIsWeightedSum(r: bv8, g: bv8, b: bv8, a: bv8)
    ensures Pack(Rgba(r, g, b, a))
         == (r as Word) * 0x100_0000 + (g as Word) * 0x1_0000 + (b as Word) * 0x100 + (a as Word)
    ensures ((r as Word) * 0x100_0000) >> 24 == r as Word
    ensures ((g as Word) * 0x1_0000) >> 16 == g as Word
    ensures ((b as Word) * 0x100) >> 8 == b as Word
    ensures (r as Word) * 0x100_0000
         <= (r as Word) * 0x100_0000 + (g as Word) * 0x1_0000
         <= (r as Word) * 0x100_0000 + (g as Word) * 0x1_0000 + (b as Word) * 0x100
         <= (r as Word) * 0x100_0000 + (g as Word) * 0x1_0000 + (b as Word) * 0x100 + (a as Word)
  {
  }
}
