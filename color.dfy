/** The part of android.graphics.Color the pixel transforms use: a colour is
    a packed 32-bit ARGB word (alpha in bits 24-31, red 16-23, green 8-15,
    blue 0-7).  Java holds it in a signed int; here it is the unsigned bit
    pattern, which is 0 exactly when the Java int is 0 and has the same
    channels. */
module Color {

  type Argb = p: int | 0 <= p < 0x1_0000_0000

  /** Color.red: (p >> 16) & 0xFF. */
  function Red(p: Argb): (c: int)
    ensures IsChannel(c)
  {
    (p / 0x1_0000) % 0x100
  }

  /** Color.green: (p >> 8) & 0xFF. */
  function Green(p: Argb): (c: int)
    ensures IsChannel(c)
  {
    (p / 0x100) % 0x100
  }

  /** Color.blue: p & 0xFF. */
  function Blue(p: Argb): (c: int)
    ensures IsChannel(c)
  {
    p % 0x100
  }

  /** Color.alpha: p >>> 24. */
  function Alpha(p: Argb): (c: int)
    ensures IsChannel(c)
  {
    p / 0x100_0000
  }

  /** An 8-bit channel value. */
  predicate IsChannel(c: int)
  {
    0 <= c < 0x100
  }

  /** Color.rgb: 0xFF000000 | r << 16 | g << 8 | b, an opaque colour; its
      channels read back as given. */
  function Rgb(r: int, g: int, b: int): (p: Argb)
    requires IsChannel(r) && IsChannel(g) && IsChannel(b)
    ensures Red(p) == r && Green(p) == g && Blue(p) == b && Alpha(p) == 0xFF
    ensures p != 0
  {
    var p := 0xFF00_0000 + r * 0x1_0000 + g * 0x100 + b;
    assert p / 0x100 == 0xFF_0000 + r * 0x100 + g;
    assert p / 0x1_0000 == 0xFF00 + r;
    p
  }

  /** A word is its four channels, alpha highest. */
  lemma {:induction false} Decompose(p: Argb)
    ensures p == Alpha(p) * 0x100_0000 + Red(p) * 0x1_0000 + Green(p) * 0x100 + Blue(p)
  {
    assert p == (p / 0x100) * 0x100 + Blue(p);
    assert p / 0x100 == (p / 0x1_0000) * 0x100 + Green(p);
    assert p / 0x1_0000 == Alpha(p) * 0x100 + Red(p);
  }

  /** An opaque word is determined by its three colour channels. */
  lemma {:induction false} OpaqueIsRgb(p: Argb)
    requires Alpha(p) == 0xFF
    ensures p == Rgb(Red(p), Green(p), Blue(p))
  {
    var a, r, g, b := p / 0x100_0000, Red(p), Green(p), Blue(p);
    assert p == (p / 0x100) * 0x100 + b;
    assert p / 0x100 == (p / 0x1_0000) * 0x100 + g;
    assert p / 0x1_0000 == a * 0x100 + r;
  }
}
