/**
 * The pixel word of the renderer's output buffer (namespace Utils of
 * Renderer.cpp): one 32-bit word per pixel holding four 8-bit channels,
 * alpha in the most significant byte, then blue, then green, and red in
 * the least significant byte.
 */
module Utils {

  /** Packs four channel bytes into one pixel word, as a << 24 | b << 16 | g << 8 | r. */
  function ConvertToRGBA(r: bv8, g: bv8, b: bv8, a: bv8): (word: bv32)
    ensures RedOf(word) == r && GreenOf(word) == g && BlueOf(word) == b && AlphaOf(word) == a
  {
    ((a as bv32) << 24) | ((b as bv32) << 16) | ((g as bv32) << 8) | (r as bv32)
  }

  /** The red channel: the lowest byte. */
  function RedOf(word: bv32): bv8 { (word & 0xFF) as bv8 }

  /** The green channel: the second byte. */
  function GreenOf(word: bv32): bv8 { ((word >> 8) & 0xFF) as bv8 }

  /** The blue channel: the third byte. */
  function BlueOf(word: bv32): bv8 { ((word >> 16) & 0xFF) as bv8 }

  /** The alpha channel: the top byte. */
  function AlphaOf(word: bv32): bv8 { (word >> 24) as bv8 }

  /** Every word is the packing of its own four channels, so packing is a bijection. */
  lemma ChannelsDetermineWord(word: bv32)
    ensures ConvertToRGBA(RedOf(word), GreenOf(word), BlueOf(word), AlphaOf(word)) == word
  {
  }

  /**
   * The colour Reset paints everywhere: the float colour (0.1, 0.1, 0.2, 1.0)
   * truncated channel by channel to the bytes 25, 25, 51 and 255.
   */
  const Placeholder: bv32 := ConvertToRGBA(25, 25, 51, 255)

  lemma PlaceholderWord()
    ensures Placeholder == 0xFF33_1919
  {
  }
}
