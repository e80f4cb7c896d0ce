/**
 * Packed pixel colours: a 32-bit word with blue in the low byte, green in
 * the middle byte and red in the byte above.
 */
module Color {

  type Pixel = bv32

  /**
   * `blue | (green << 8) | (red << 16)` on u32 operands. For channels that
   * fit in a byte the word is the base-256 number red:green:blue. The sum
   * below does not wrap, because each term is below 2^24 and the three occupy
   * disjoint bytes. Each channel can be read back out of the word.
   */
  function Pack(red: Pixel, green: Pixel, blue: Pixel): (c: Pixel)
    ensures red < 256 && green < 256 && blue < 256 ==>
      c == blue + 256 * green + 65536 * red && c < 0x100_0000
    ensures red < 256 && green < 256 && blue < 256 ==>
      Red(c) == red && Green(c) == green && Blue(c) == blue
  {
    blue | (green << 8) | (red << 16)
  }

  function Red(c: Pixel): Pixel { (c >> 16) & 0xFF }

  function Green(c: Pixel): Pixel { (c >> 8) & 0xFF }

  function Blue(c: Pixel): Pixel { c & 0xFF }

  /** Every 24-bit word is the packing of its own three channels. */
  lemma PackUnpack(c: Pixel)
    requires c < 0x100_0000
    ensures Pack(Red(c), Green(c), Blue(c)) == c
  {
  }

  /** The colour every pixel is cleared to at the start of a frame. */
  const Black: Pixel := Pack(0, 0, 0)

  /** The colour of the line: full red and full green, no blue. */
  const LineColor: Pixel := Pack(255, 255, 0)

  lemma ColorConstants()
    ensures Black == 0
    ensures LineColor == 0xFFFF00
    ensures Red(LineColor) == 255 && Green(LineColor) == 255 && Blue(LineColor) == 0
  {
  }
}
