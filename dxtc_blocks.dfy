/** The on-wire records of S3TC (DXT) block compression and the decoding of
    one 4x4 block: field extraction, the per-block palettes and the texel
    each 2-, 3- or 4-bit code selects.

    Texels of a block are numbered i = 4 * row + column, row-major, as the
    codes are stored. */
module DxtcBlocks {
  import opened Words
  import opened HighColors

  // ---------------------------------------------------------------------
  // Formats
  // ---------------------------------------------------------------------

  /** The compression variants: DXT1 (opaque), DXT1 with punch-through
      alpha, DXT3 (explicit 4-bit alpha), DXT5 (interpolated alpha). */
  datatype Format = Dxt1 | Dxt1A | Dxt3 | Dxt5

  /** The format's tag in the decoding API. */
  function Tag(f: Format): (t: Uint32)
    ensures 1 <= t <= 4
  {
    match f
    case Dxt1 => 1
    case Dxt1A => 2
    case Dxt3 => 3
    case Dxt5 => 4
  }

  /** The format a tag names; only the tags 1 to 4 name one. */
  function FormatOfTag(tag: int): (f: Option<Format>)
    ensures f.Some? <==> 1 <= tag <= 4
    ensures f.Some? ==> Tag(f.value) == tag
  {
    if tag == 1 then Some(Dxt1)
    else if tag == 2 then Some(Dxt1A)
    else if tag == 3 then Some(Dxt3)
    else if tag == 4 then Some(Dxt5)
    else None
  }

  lemma TagRoundTrip(f: Format)
    ensures FormatOfTag(Tag(f)) == Some(f)
  {
  }

  /** Bytes per 4x4 block: a colour block alone, or an alpha block followed
      by a colour block. */
  function BlockSize(f: Format): (n: nat)
    ensures n == 8 <==> f == Dxt1 || f == Dxt1A
    ensures n == 16 <==> f == Dxt3 || f == Dxt5
  {
    match f
    case Dxt1 | Dxt1A => 8
    case Dxt3 | Dxt5 => 16
  }

  // ---------------------------------------------------------------------
  // Colour block (8 bytes)
  // ---------------------------------------------------------------------

  type Bytes4 = s: seq<Uint8> | |s| == 4 witness [0, 0, 0, 0]
  type Bytes6 = s: seq<Uint8> | |s| == 6 witness [0, 0, 0, 0, 0, 0]
  type Words4 = s: seq<Uint16> | |s| == 4 witness [0, 0, 0, 0]

  /** Two little-endian 5:6:5 reference colours, then one code byte per
      texel row holding that row's four 2-bit codes, column 0 in the lowest
      bits. */
  datatype ColorBlock = ColorBlock(colorLow0: Uint8, colorHigh0: Uint8, colorLow1: Uint8, colorHigh1: Uint8, codes: Bytes4)
  {
    function Color0(): (c: HighColor)
      ensures c.color % 0x100 == colorLow0 && c.color / 0x100 == colorHigh0
    {
      HighColor(Le16(colorLow0, colorHigh0))
    }

    function Color1(): (c: HighColor)
      ensures c.color % 0x100 == colorLow1 && c.color / 0x100 == colorHigh1
    {
      HighColor(Le16(colorLow1, colorHigh1))
    }

    /** The 2-bit palette index of texel i. */
    function Code(i: nat): (k: nat)
      requires i < 16
      ensures k < 4
      ensures k == codes[i / 4] / Pow(4, i % 4) % 4
    {
      DigitAt(codes[i / 4], 4, 4, i % 4);
      ToDigits(codes[i / 4], 4, 4)[i % 4]
    }

    function Bytes(): (b: seq<Uint8>)
      ensures |b| == 8
    {
      [colorLow0, colorHigh0, colorLow1, colorHigh1] + codes
    }
  }

  function ParseColorBlock(b: seq<Uint8>): (cb: ColorBlock)
    requires |b| == 8
    ensures cb.Bytes() == b
  {
    ColorBlock(b[0], b[1], b[2], b[3], b[4..8])
  }

  lemma ParseColorBlockBytes(cb: ColorBlock)
    ensures ParseColorBlock(cb.Bytes()) == cb
  {
  }

  /** The four codes of a row are exactly the bits of that row's code byte:
      reassembling them gives the byte back. */
  lemma {:induction false} ColorCodesRoundTrip(cb: ColorBlock, row: nat)
    requires row < 4
    ensures FromDigits([cb.Code(4 * row), cb.Code(4 * row + 1), cb.Code(4 * row + 2), cb.Code(4 * row + 3)], 4) == cb.codes[row]
  {
    var ds := ToDigits(cb.codes[row], 4, 4);
    forall col: nat | col < 4
      ensures cb.Code(4 * row + col) == ds[col]
    {
      DivModOf(4, row, col);
    }
    assert [cb.Code(4 * row), cb.Code(4 * row + 1), cb.Code(4 * row + 2), cb.Code(4 * row + 3)] == ds;
    assert Pow(4, 4) == 256;
    FromToDigits(cb.codes[row], 4, 4);
  }

  // ---------------------------------------------------------------------
  // DXT3 explicit alpha block (8 bytes)
  // ---------------------------------------------------------------------

  /** Four little-endian 16-bit rows, each holding its texels' 4-bit alphas,
      column 0 in the lowest bits. */
  datatype Dxt3AlphaBlock = Dxt3AlphaBlock(alpha: Words4)
  {
    /** The 4-bit alpha of texel i. */
    function Alpha(i: nat): (a: nat)
      requires i < 16
      ensures a < 16
      ensures a == alpha[i / 4] / Pow(16, i % 4) % 16
    {
      DigitAt(alpha[i / 4], 16, 4, i % 4);
      ToDigits(alpha[i / 4], 16, 4)[i % 4]
    }
  }

  function ParseDxt3AlphaBlock(b: seq<Uint8>): (ab: Dxt3AlphaBlock)
    requires |b| == 8
    ensures forall r :: 0 <= r < 4 ==> ab.alpha[r] % 0x100 == b[2 * r] && ab.alpha[r] / 0x100 == b[2 * r + 1]
  {
    Dxt3AlphaBlock([Le16(b[0], b[1]), Le16(b[2], b[3]), Le16(b[4], b[5]), Le16(b[6], b[7])])
  }

  /** 4-bit to 8-bit alpha by replication, a | (a << 4): the value appears in
      both nibbles, so 0 stays transparent and 15 becomes fully opaque. */
  function Expand4(a: nat): (e: Uint8)
    requires a < 16
    ensures e / 16 == a && e % 16 == a
    ensures a == 15 ==> e == 255
  {
    a * 17
  }

  /** The four alphas of a row are exactly the bits of that row's word. */
  lemma {:induction false} Dxt3AlphaRoundTrip(ab: Dxt3AlphaBlock, row: nat)
    requires row < 4
    ensures FromDigits([ab.Alpha(4 * row), ab.Alpha(4 * row + 1), ab.Alpha(4 * row + 2), ab.Alpha(4 * row + 3)], 16) == ab.alpha[row]
  {
    var ds := ToDigits(ab.alpha[row], 16, 4);
    forall col: nat | col < 4
      ensures ab.Alpha(4 * row + col) == ds[col]
    {
      DivModOf(4, row, col);
    }
    assert [ab.Alpha(4 * row), ab.Alpha(4 * row + 1), ab.Alpha(4 * row + 2), ab.Alpha(4 * row + 3)] == ds;
    assert Pow(16, 4) == 0x1_0000;
    FromToDigits(ab.alpha[row], 16, 4);
  }

  // ---------------------------------------------------------------------
  // DXT5 interpolated alpha block (8 bytes)
  // ---------------------------------------------------------------------

  /** Two reference alphas, then six bytes forming one 48-bit little-endian
      integer that holds sixteen 3-bit codes, texel 0 in the lowest bits. */
  datatype Dxt5AlphaBlock = Dxt5AlphaBlock(alpha0: Uint8, alpha1: Uint8, codes: Bytes6)
  {
    function CodeBits(): (x: nat)
      ensures x < 0x1_0000_0000_0000
      ensures forall j :: 0 <= j < 6 ==> x / Pow(256, j) % 256 == codes[j]
    {
      forall j | 0 <= j < 6
        ensures FromDigits(codes, 256) / Pow(256, j) % 256 == codes[j]
      {
        MergedDigit(codes, 256, j);
      }
      ToFromDigits(codes, 256);
      assert Pow(256, 6) == 0x1_0000_0000_0000;
      FromDigits(codes, 256)
    }

    /** The 3-bit alpha-palette index of texel i. */
    function Code(i: nat): (k: nat)
      requires i < 16
      ensures k < 8
      ensures k == CodeBits() / Pow(8, i) % 8
    {
      DigitAt(CodeBits(), 8, 16, i);
      ToDigits(CodeBits(), 8, 16)[i]
    }

    function Bytes(): (b: seq<Uint8>)
      ensures |b| == 8
    {
      [alpha0, alpha1] + codes
    }
  }

  function ParseDxt5AlphaBlock(b: seq<Uint8>): (ab: Dxt5AlphaBlock)
    requires |b| == 8
    ensures ab.Bytes() == b
  {
    Dxt5AlphaBlock(b[0], b[1], b[2..8])
  }

  /** The sixteen 3-bit codes are exactly the 48 code bits. */
  lemma Dxt5CodesRoundTrip(ab: Dxt5AlphaBlock)
    ensures FromDigits(seq(16, i requires 0 <= i < 16 => ab.Code(i)), 8) == ab.CodeBits()
  {
    var ds := ToDigits(ab.CodeBits(), 8, 16);
    assert seq(16, i requires 0 <= i < 16 => ab.Code(i)) == ds;
    assert Pow(8, 8) == 0x100_0000;
    assert Pow(8, 12) == 0x10_0000_0000;
    assert Pow(8, 16) == 0x1_0000_0000_0000;
    FromToDigits(ab.CodeBits(), 8, 16);
  }

  // ---------------------------------------------------------------------
  // Colour palette
  // ---------------------------------------------------------------------

  /** A palette entry: a colour and the alpha it is drawn with. */
  datatype Entry = Entry(rgb: HighColor, alpha: Uint8)

  /** Four-colour mode is used by DXT3 and DXT5 always, and by DXT1 and
      DXT1A when color0 > color1 as unsigned 16-bit values. */
  predicate FourColorMode(cb: ColorBlock, f: Format): (four: bool)
    ensures f == Dxt3 || f == Dxt5 ==> four
    ensures f == Dxt1 || f == Dxt1A ==> (four <==> cb.Color0().color > cb.Color1().color)
  {
    f == Dxt3 || f == Dxt5 || cb.Color0().color > cb.Color1().color
  }

  /** The block's four-entry palette. In four-colour mode entries 2 and 3 are
      the 2:1 and 1:2 interpolations; otherwise both carry the blend, and
      entry 3 is transparent under DXT1A. */
  function ColorPalette(cb: ColorBlock, f: Format): (p: seq<Entry>)
    ensures |p| == 4
    ensures p[0].rgb == cb.Color0() && p[1].rgb == cb.Color1()
    ensures FourColorMode(cb, f) ==>
      p[2].rgb == cb.Color0().LinearInterpolation(cb.Color1()) && p[3].rgb == cb.Color1().LinearInterpolation(cb.Color0())
    ensures !FourColorMode(cb, f) ==> p[2].rgb == cb.Color0().LinearBlend(cb.Color1()) && p[3].rgb == p[2].rgb
  {
    var c0, c1 := cb.Color0(), cb.Color1();
    if FourColorMode(cb, f) then
      [Entry(c0, 255), Entry(c1, 255), Entry(c0.LinearInterpolation(c1), 255), Entry(c1.LinearInterpolation(c0), 255)]
    else
      var mid := c0.LinearBlend(c1);
      [Entry(c0, 255), Entry(c1, 255), Entry(mid, 255), Entry(mid, if f == Dxt1A then 0 else 255)]
  }

  /** Every entry is fully opaque except entry 3 of a DXT1A block with
      color0 <= color1, which is fully transparent. */
  lemma PaletteAlpha(cb: ColorBlock, f: Format, k: nat)
    requires k < 4
    ensures ColorPalette(cb, f)[k].alpha == 0 <==> f == Dxt1A && k == 3 && cb.Color0().color <= cb.Color1().color
    ensures ColorPalette(cb, f)[k].alpha != 0 ==> ColorPalette(cb, f)[k].alpha == 255
  {
  }

  /** Each palette colour lies between the two reference colours, channel
      by channel. */
  lemma PaletteBetween(cb: ColorBlock, f: Format, k: nat)
    requires k < 4
    ensures Between(ColorPalette(cb, f)[k].rgb, cb.Color0(), cb.Color1())
  {
    MixesBetween(cb.Color0(), cb.Color1());
  }

  /** With equal reference colours every palette entry has that colour. */
  lemma UniformPalette(cb: ColorBlock, f: Format, k: nat)
    requires k < 4 && cb.Color0() == cb.Color1()
    ensures ColorPalette(cb, f)[k].rgb == cb.Color0()
  {
    BlendCommutes(cb.Color0(), cb.Color0());
    InterpolationSelf(cb.Color0());
  }

  // ---------------------------------------------------------------------
  // DXT5 alpha palette
  // ---------------------------------------------------------------------

  /** (w * a0 + (n - w) * a1) / n rounded down: the weights w/n and (n-w)/n. */
  function AlphaMix(a0: Uint8, a1: Uint8, w: nat, n: nat): (m: Uint8)
    requires 0 < n && w <= n
    ensures n * m <= w * a0 + (n - w) * a1 < n * m + n
    ensures a1 <= a0 ==> a1 <= m <= a0
    ensures a0 <= a1 ==> a0 <= m <= a1
  {
    MixInRange(a0, a1, w, n);
    (w * a0 + (n - w) * a1) / n
  }

  /** The rounded-down weighted mean stays between the two alphas. */
  lemma MixInRange(a0: nat, a1: nat, w: nat, n: nat)
    requires 0 < n && w <= n
    ensures var m := (w * a0 + (n - w) * a1) / n;
      (a0 <= a1 ==> a0 <= m <= a1) && (a1 <= a0 ==> a1 <= m <= a0)
  {
    var s := w * a0 + (n - w) * a1;
    MixBounds(a0, a1, w, n);
    if a0 <= a1 {
      DivBounds(s, n, a0, a1);
    }
    if a1 <= a0 {
      DivBounds(s, n, a1, a0);
    }
  }

  lemma MixBounds(a0: nat, a1: nat, w: nat, n: nat)
    requires w <= n
    ensures a0 <= a1 ==> n * a0 <= w * a0 + (n - w) * a1 <= n * a1
    ensures a1 <= a0 ==> n * a1 <= w * a0 + (n - w) * a1 <= n * a0
  {
    if a0 <= a1 {
      MulLe(w, a0, a1);
      MulLe(n - w, a0, a1);
    } else {
      MulLe(w, a1, a0);
      MulLe(n - w, a1, a0);
    }
  }

  /** The eight-entry alpha palette of a DXT5 block. When alpha0 > alpha1,
      entries 2..7 interpolate at weights 6/7..1/7 of alpha0; otherwise
      entries 2..5 interpolate at weights 4/5..1/5 and entries 6 and 7 are
      0 and 255. */
  function AlphaPalette(a0: Uint8, a1: Uint8): (p: seq<Uint8>)
    ensures |p| == 8 && p[0] == a0 && p[1] == a1
    ensures a0 > a1 ==> forall k :: 2 <= k < 8 ==> p[k] == AlphaMix(a0, a1, 8 - k, 7)
    ensures a0 <= a1 ==> (forall k :: 2 <= k < 6 ==> p[k] == AlphaMix(a0, a1, 6 - k, 5)) && p[6] == 0 && p[7] == 255
  {
    if a0 > a1 then
      [a0, a1, AlphaMix(a0, a1, 6, 7), AlphaMix(a0, a1, 5, 7), AlphaMix(a0, a1, 4, 7),
       AlphaMix(a0, a1, 3, 7), AlphaMix(a0, a1, 2, 7), AlphaMix(a0, a1, 1, 7)]
    else
      [a0, a1, AlphaMix(a0, a1, 4, 5), AlphaMix(a0, a1, 3, 5), AlphaMix(a0, a1, 2, 5),
       AlphaMix(a0, a1, 1, 5), 0, 255]
  }

  /** A larger weight on a0 never moves the mix away from a0, and moves it
      strictly when the two alphas are at least n apart. */
  lemma MixMonotone(a0: Uint8, a1: Uint8, w1: nat, w2: nat, n: nat)
    requires 0 < n && w2 < w1 <= n && a1 <= a0
    ensures AlphaMix(a0, a1, w2, n) <= AlphaMix(a0, a1, w1, n)
    ensures a0 - a1 >= n ==> AlphaMix(a0, a1, w2, n) < AlphaMix(a0, a1, w1, n)
  {
    var s1, s2 := w1 * a0 + (n - w1) * a1, w2 * a0 + (n - w2) * a1;
    assert AlphaMix(a0, a1, w1, n) == s1 / n;
    assert AlphaMix(a0, a1, w2, n) == s2 / n;
    MixSumGrows(a0, a1, w1, w2, n);
    DivMono(s2, s1, n);
    DivStep(s2, s1, n);
  }

  /** Moving weight from a1 to a0 >= a1 raises the weighted sum by at least the gap. */
  lemma MixSumGrows(a0: nat, a1: nat, w1: nat, w2: nat, n: nat)
    requires w2 < w1 <= n && a1 <= a0
    ensures w2 * a0 + (n - w2) * a1 + (a0 - a1) <= w1 * a0 + (n - w1) * a1
  {
    MixAsOffset(a0, a1, w1, n);
    MixAsOffset(a0, a1, w2, n);
    OffsetGrows(a0 - a1, w2, w1);
  }

  /** The weighted sum is a1 counted n times plus w times the gap a0 - a1. */
  lemma MixAsOffset(a0: nat, a1: nat, w: nat, n: nat)
    requires w <= n && a1 <= a0
    ensures w * a0 + (n - w) * a1 == n * a1 + w * (a0 - a1)
  {
  }

  lemma OffsetGrows(d: nat, w2: nat, w1: nat)
    requires w2 < w1
    ensures w2 * d + d <= w1 * d
  {
    MulLe(d, w2 + 1, w1);
  }

  /** The order in which an eight-entry ramp runs from alpha0 down to alpha1. */
  const RampOrder: seq<nat> := [0, 2, 3, 4, 5, 6, 7, 1]

  /** With alpha0 > alpha1 the palette runs from alpha0 down to alpha1 in
      RampOrder, never rising, and strictly falling when the two are at
      least 7 apart (in particular for alpha0 = 255, alpha1 = 0). */
  lemma EightAlphaRamp(a0: Uint8, a1: Uint8, k: nat)
    requires a0 > a1 && k < 7
    ensures AlphaPalette(a0, a1)[RampOrder[k + 1]] <= AlphaPalette(a0, a1)[RampOrder[k]]
    ensures a0 - a1 >= 7 ==> AlphaPalette(a0, a1)[RampOrder[k + 1]] < AlphaPalette(a0, a1)[RampOrder[k]]
  {
    var w := 7 - k;
    if k == 0 {
      // alpha0 is AlphaMix at weight 7/7
      assert AlphaMix(a0, a1, 7, 7) == a0;
      MixMonotone(a0, a1, 7, 6, 7);
    } else if k == 6 {
      assert AlphaMix(a0, a1, 0, 7) == a1;
      MixMonotone(a0, a1, 1, 0, 7);
    } else {
      MixMonotone(a0, a1, w, w - 1, 7);
    }
  }

  /** With alpha0 <= alpha1, entries 2..5 rise from alpha0 towards alpha1 and
      entries 6 and 7 are exactly 0 and 255, not interpolated. */
  lemma SixAlphaRamp(a0: Uint8, a1: Uint8)
    requires a0 <= a1
    ensures var p := AlphaPalette(a0, a1);
      p[6] == 0 && p[7] == 255 && a0 <= p[2] <= p[3] <= p[4] <= p[5] <= a1
  {
    var p := AlphaPalette(a0, a1);
    // read with the roles of a0 and a1 exchanged: weight 1/5 of a1 is 4/5 of a0
    assert p[2] == AlphaMix(a0, a1, 4, 5);
  }

  /** The ramp between fully opaque and fully transparent. */
  lemma AlphaRamp255To0()
    ensures AlphaPalette(255, 0) == [255, 0, 218, 182, 145, 109, 72, 36]
  {
  }

  // ---------------------------------------------------------------------
  // Texels of one block
  // ---------------------------------------------------------------------

  /** The colour block of a block: the whole block for DXT1 and DXT1A, its
      second half for DXT3 and DXT5. */
  function ColorBlockOf(block: seq<Uint8>, f: Format): (cb: ColorBlock)
    requires |block| == BlockSize(f)
    ensures cb.Bytes() == block[|block| - 8..]
  {
    if BlockSize(f) == 8 then ParseColorBlock(block) else ParseColorBlock(block[8..])
  }

  /** The alpha of texel i by the format's rule: DXT1 texels are opaque; a
      DXT1A texel is transparent exactly when color0 <= color1 and its code
      is 3, and opaque otherwise; DXT3 replicates the texel's 4-bit alpha; DXT5
      takes the alpha-palette entry its 3-bit code selects. */
  function TexelAlpha(block: seq<Uint8>, f: Format, i: nat): (a: Uint8)
    requires |block| == BlockSize(f) && i < 16
    ensures f == Dxt1 ==> a == 255
    ensures f == Dxt1A ==> var cb := ParseColorBlock(block);
      && (a == 0 <==> cb.Color0().color <= cb.Color1().color && cb.Code(i) == 3)
      && (a != 0 ==> a == 255)
    ensures f == Dxt3 ==> a == 17 * ParseDxt3AlphaBlock(block[..8]).Alpha(i)
    ensures f == Dxt5 ==> var ab := ParseDxt5AlphaBlock(block[..8]);
      a == AlphaPalette(ab.alpha0, ab.alpha1)[ab.Code(i)]
  {
    var cb := ColorBlockOf(block, f);
    PaletteAlpha(cb, f, cb.Code(i));
    match f
    case Dxt1 => ColorPalette(cb, f)[cb.Code(i)].alpha
    case Dxt1A => ColorPalette(cb, f)[cb.Code(i)].alpha
    case Dxt3 => Expand4(ParseDxt3AlphaBlock(block[..8]).Alpha(i))
    case Dxt5 =>
      var ab := ParseDxt5AlphaBlock(block[..8]);
      AlphaPalette(ab.alpha0, ab.alpha1)[ab.Code(i)]
  }

  /** The sixteen texels of a block, row-major, decoded with one palette
      built for the whole block: texel i has the colour of the palette entry
      its 2-bit code selects, expanded to 8 bits per channel, and the
      format's alpha. */
  function DecodeBlock(block: seq<Uint8>, f: Format): (texels: seq<Uint32>)
    requires |block| == BlockSize(f)
    ensures |texels| == 16
    ensures forall i | 0 <= i < 16 ::
      var cb := ColorBlockOf(block, f);
      var c := ColorPalette(cb, f)[cb.Code(i)].rgb;
      Unpack(texels[i]) == Rgba(Expand5(c.R5()), Expand6(c.G6()), Expand5(c.B5()), TexelAlpha(block, f, i))
  {
    var cb := ColorBlockOf(block, f);
    var palette := ColorPalette(cb, f);
    seq(16, i requires 0 <= i < 16 => palette[cb.Code(i)].rgb.TrueColor(TexelAlpha(block, f, i)))
  }

  /** A DXT1 block whose reference colours are equal decodes to sixteen
      identical opaque texels of that colour, whatever its codes. */
  lemma UniformDxt1Block(block: seq<Uint8>, i: nat)
    requires |block| == 8 && i < 16
    requires block[0] == block[2] && block[1] == block[3]
    ensures DecodeBlock(block, Dxt1)[i] == ParseColorBlock(block).Color0().TrueColor(255)
  {
    var cb := ParseColorBlock(block);
    UniformPalette(cb, Dxt1, cb.Code(i));
    PaletteAlpha(cb, Dxt1, cb.Code(i));
  }
}
