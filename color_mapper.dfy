/**
 * Conversion of emulator pixels (a Java `int` holding 0x00RRGGBB) to the
 * map image layout 0xRRGGBBAA, with the alpha byte in bits 0-7.
 */
module ColorMapper {

  /** A Java `int` pixel, as its 32 bits. */
  type Pixel = bv32

  /**
   * `(rgb << 8) | 0xFF` with Java's 32-bit shift: the colour moves up one
   * byte, the top input byte is shifted out and the alpha byte is opaque.
   */
  function ToRgba(rgb: Pixel): (r: Pixel)
    ensures r & 0xFF == 0xFF
    ensures r >> 8 == rgb & 0xFF_FFFF
  {
    var shifted := rgb << 8;
    shifted | 0xFF
  }

  /** Opaque black, used for padding. */
  function Black(): (r: Pixel)
    ensures r == ToRgba(0)
  {
    0x0000_00FF
  }

  /**
   * On a 24-bit colour nothing is shifted out: the conversion is
   * `rgb * 256 + 255` and the colour can be read back from the upper bytes.
   */
  lemma ToRgbaOf24Bit(rgb: Pixel)
    requires rgb <= 0xFF_FFFF
    ensures ToRgba(rgb) == rgb * 256 + 255
    ensures ToRgba(rgb) >> 8 == rgb
  {
  }

  /**
   * The top input byte never reaches the result, so an ARGB pixel
   * 0xFFRRGGBB converts exactly like the plain colour 0x00RRGGBB.
   */
  lemma ToRgbaIgnoresTopByte(rgb: Pixel)
    ensures ToRgba(rgb) == ToRgba(rgb & 0xFF_FFFF)
    ensures ToRgba(rgb | 0xFF00_0000) == ToRgba(rgb)
  {
  }

  /** Worked values of the conversion. */
  lemma ToRgbaExamples()
    ensures ToRgba(0xFF_FFFF) == 0xFFFF_FFFF
    ensures ToRgba(0x00_0000) == 0x0000_00FF
    ensures ToRgba(0x99_C886) == 0x99C8_86FF
    ensures ToRgba(0xFF_0000) == 0xFF00_00FF
  {
  }

  /** Converts every element of `pixels` in place. */
  method ToRgbaInPlace(pixels: array<Pixel>)
    modifies pixels
    ensures forall i :: 0 <= i < pixels.Length ==> pixels[i] == ToRgba(old(pixels[i]))
  {
    var i := 0;
    while i < pixels.Length
      invariant 0 <= i <= pixels.Length
      invariant forall k :: 0 <= k < i ==> pixels[k] == ToRgba(old(pixels[k]))
      invariant forall k :: i <= k < pixels.Length ==> pixels[k] == old(pixels[k])
    {
      pixels[i] := ToRgba(pixels[i]);
      i := i + 1;
    }
  }

  /**
   * Converts the first `len` pixels of `src` into `dest`; the rest of `dest`
   * is left alone. A non-positive `len` converts nothing.
   */
  method ToRgbaArray(src: array<Pixel>, dest: array<Pixel>, len: int)
    requires len <= src.Length && len <= dest.Length
    modifies dest
    ensures forall i :: 0 <= i < len ==> dest[i] == ToRgba(old(src[i]))
    ensures forall i :: 0 <= i < dest.Length && len <= i ==> dest[i] == old(dest[i])
    ensures src != dest ==> src[..] == old(src[..])
  {
    var i := 0;
    while i < len
      invariant 0 <= i <= if len < 0 then 0 else len
      invariant forall k :: 0 <= k < i ==> dest[k] == ToRgba(old(src[k]))
      invariant forall k :: i <= k < dest.Length ==> dest[k] == old(dest[k])
      invariant src != dest ==> src[..] == old(src[..])
    {
      dest[i] := ToRgba(src[i]);
      i := i + 1;
    }
  }
}
