/** The 16-bit RGB 5:6:5 colour that DXT colour blocks store, and the 32-bit
    RGBA word it expands to. A HighColor is an immutable value: every
    operation returns a new colour and leaves its operands as they were.

    Arithmetic is exact on the integer channels: each operation rounds the
    exact rational result down once, then clamps it to the channel's range. */
module HighColors {
  import opened Words

  // ---------------------------------------------------------------------
  // 32-bit RGBA words
  // ---------------------------------------------------------------------

  /** One output texel, one byte per channel. */
  datatype Rgba = Rgba(r: Uint8, g: Uint8, b: Uint8, a: Uint8)
  {
    /** The packed word: red in bits 0-7, green 8-15, blue 16-23, alpha
        24-31, so the bytes lie in memory in R, G, B, A order on a
        little-endian host. */
    function Word(): (w: Uint32)
      ensures w % 0x100 == r && w / 0x100 % 0x100 == g
      ensures w / 0x1_0000 % 0x100 == b && w / 0x100_0000 == a
    {
      WordFields(r, g, b, a);
      r + 0x100 * g + 0x1_0000 * b + 0x100_0000 * a
    }
  }

  /** The four bytes of a packed word read back by shifts and masks. */
  lemma WordFields(r: Uint8, g: Uint8, b: Uint8, a: Uint8)
    ensures var w := r + 0x100 * g + 0x1_0000 * b + 0x100_0000 * a;
      && w % 0x100 == r && w / 0x100 % 0x100 == g
      && w / 0x1_0000 % 0x100 == b && w / 0x100_0000 == a
  {
    var w := r + 0x100 * g + 0x1_0000 * b + 0x100_0000 * a;
    assert w == r + 0x100 * (g + 0x100 * (b + 0x100 * a));
    DivModOf(0x100, g + 0x100 * (b + 0x100 * a), r);
    DivModOf(0x100, b + 0x100 * a, g);
    DivModOf(0x100, a, b);
    DivDiv(w, 0x100, 0x100);
    DivDiv(w, 0x1_0000, 0x100);
  }

  /** Reads the four channel bytes back out of a packed word. */
  function Unpack(w: Uint32): (p: Rgba)
    ensures p.Word() == w
  {
    WordBytes(w);
    Rgba(w % 0x100, w / 0x100 % 0x100, w / 0x1_0000 % 0x100, w / 0x100_0000)
  }

  /** A word is its four bytes, lowest first. */
  lemma WordBytes(w: nat)
    ensures w == w % 0x100 + 0x100 * (w / 0x100 % 0x100) + 0x1_0000 * (w / 0x1_0000 % 0x100) + 0x100_0000 * (w / 0x100_0000)
  {
    var w1 := w / 0x100;
    var w2 := w1 / 0x100;
    var w3 := w2 / 0x100;
    Split(w, 0x100);
    Split(w1, 0x100);
    Split(w2, 0x100);
    DivDiv(w, 0x100, 0x100);
    DivDiv(w, 0x1_0000, 0x100);
    assert w / 0x1_0000 == w2 && w / 0x100_0000 == w3;
  }

  /** Packing loses nothing: each channel can be read back. */
  lemma UnpackWord(p: Rgba)
    ensures Unpack(p.Word()) == p
  {
  }

  // ---------------------------------------------------------------------
  // Channel arithmetic
  // ---------------------------------------------------------------------

  /** Clamps an intermediate channel value into [0, max]. */
  function Clamp(v: int, max: nat): (c: nat)
    ensures c <= max
    ensures 0 <= v <= max ==> c == v
  {
    if v < 0 then 0 else if v > max then max else v
  }

  /** One channel times the factor num/den, rounded down, clamped to [0, max]. */
  function ScaleChannel(v: nat, num: int, den: nat, max: nat): (c: nat)
    requires den > 0
    ensures c <= max
    ensures 0 <= v * num < (max + 1) * den ==> den * c <= v * num < den * c + den
    ensures v * num < 0 ==> c == 0
    ensures v * num >= (max + 1) * den ==> c == max
  {
    QuotientOutOfRange(v * num, den, max);
    Clamp(v * num / den, max)
  }

  /** A negative dividend has a negative quotient, and one of at least
      (max + 1) * den a quotient above max. */
  lemma QuotientOutOfRange(x: int, den: nat, max: nat)
    requires den > 0
    ensures x < 0 ==> x / den < 0
    ensures x >= (max + 1) * den ==> x / den > max
  {
    if x >= (max + 1) * den {
      DivModOf(den, max + 1, 0);
      DivMono(den * (max + 1), x, den);
    }
  }

  /** Sum of two channels, saturating at max. */
  function AddChannel(a: nat, b: nat, max: nat): (c: nat)
    ensures c <= max
    ensures c == a + b || (a + b > max && c == max)
  {
    Clamp(a + b, max)
  }

  /** 0.5*a + 0.5*b, rounded down. */
  function MeanChannel(a: nat, b: nat): (c: nat)
    ensures 2 * c <= a + b <= 2 * c + 1
    ensures a <= b ==> a <= c <= b
    ensures b <= a ==> b <= c <= a
  {
    (a + b) / 2
  }

  /** (2/3)*a + (1/3)*b, rounded down. */
  function TwoThirdsChannel(a: nat, b: nat): (c: nat)
    ensures 3 * c <= 2 * a + b <= 3 * c + 2
    ensures a <= b ==> a <= c <= b
    ensures b <= a ==> b <= c <= a
  {
    (2 * a + b) / 3
  }

  /** 5-bit to 8-bit expansion by bit replication: (v << 3) | (v >> 2). */
  function Expand5(v: nat): (e: Uint8)
    requires v < 32
    ensures e / 8 == v && e % 8 == v / 4
    ensures v == 0 ==> e == 0
    ensures v == 31 ==> e == 255
  {
    v * 8 + v / 4
  }

  /** 6-bit to 8-bit expansion by bit replication: (v << 2) | (v >> 4). */
  function Expand6(v: nat): (e: Uint8)
    requires v < 64
    ensures e / 4 == v && e % 4 == v / 16
    ensures v == 0 ==> e == 0
    ensures v == 63 ==> e == 255
  {
    v * 4 + v / 16
  }

  // ---------------------------------------------------------------------
  // HighColor
  // ---------------------------------------------------------------------

  /** A 5:6:5 colour: red in bits 15-11, green in bits 10-5, blue in bits 4-0.
      Every 16-bit value is a valid colour. */
  datatype HighColor = HighColor(color: Uint16)
  {
    function R5(): (r: nat)
      ensures r < 32
    {
      color / 2048
    }

    function G6(): (g: nat)
      ensures g < 64
    {
      color / 32 % 64
    }

    function B5(): (b: nat)
      ensures b < 32
    {
      color % 32
    }

    /** The 32-bit RGBA word of this colour with the caller's alpha. */
    function TrueColor(alpha: Uint8): (w: Uint32)
      ensures Unpack(w) == Rgba(Expand5(R5()), Expand6(G6()), Expand5(B5()), alpha)
    {
      var p := Rgba(Expand5(R5()), Expand6(G6()), Expand5(B5()), alpha);
      UnpackWord(p);
      p.Word()
    }

    /** Each channel multiplied by num/den. */
    function Scale(num: int, den: nat): (c: HighColor)
      requires den > 0
      ensures c.R5() == ScaleChannel(R5(), num, den, 31)
      ensures c.G6() == ScaleChannel(G6(), num, den, 63)
      ensures c.B5() == ScaleChannel(B5(), num, den, 31)
    {
      Pack(ScaleChannel(R5(), num, den, 31), ScaleChannel(G6(), num, den, 63), ScaleChannel(B5(), num, den, 31))
    }

    /** Channel-wise sum, saturating. */
    function Add(other: HighColor): (c: HighColor)
      ensures c.R5() == AddChannel(R5(), other.R5(), 31)
      ensures c.G6() == AddChannel(G6(), other.G6(), 63)
      ensures c.B5() == AddChannel(B5(), other.B5(), 31)
    {
      Pack(AddChannel(R5(), other.R5(), 31), AddChannel(G6(), other.G6(), 63), AddChannel(B5(), other.B5(), 31))
    }

    /** 0.5*this + 0.5*other, channel by channel. */
    function LinearBlend(other: HighColor): (c: HighColor)
      ensures c.R5() == MeanChannel(R5(), other.R5())
      ensures c.G6() == MeanChannel(G6(), other.G6())
      ensures c.B5() == MeanChannel(B5(), other.B5())
    {
      Pack(MeanChannel(R5(), other.R5()), MeanChannel(G6(), other.G6()), MeanChannel(B5(), other.B5()))
    }

    /** (2/3)*this + (1/3)*other, channel by channel. */
    function LinearInterpolation(other: HighColor): (c: HighColor)
      ensures c.R5() == TwoThirdsChannel(R5(), other.R5())
      ensures c.G6() == TwoThirdsChannel(G6(), other.G6())
      ensures c.B5() == TwoThirdsChannel(B5(), other.B5())
    {
      Pack(TwoThirdsChannel(R5(), other.R5()), TwoThirdsChannel(G6(), other.G6()), TwoThirdsChannel(B5(), other.B5()))
    }
  }

  /** The colour with the given channels. */
  function Pack(r5: nat, g6: nat, b5: nat): (c: HighColor)
    requires r5 < 32 && g6 < 64 && b5 < 32
    ensures c.R5() == r5 && c.G6() == g6 && c.B5() == b5
  {
    var v := r5 * 2048 + g6 * 32 + b5;
    assert v / 32 == r5 * 64 + g6;
    HighColor(v)
  }

  const Black := HighColor(0)

  /** The packed value is the 5:6:5 layout of its own channels, so splitting
      a colour into channels and packing them again gives it back. */
  lemma Components(c: HighColor)
    ensures c.color == c.R5() * 2048 + c.G6() * 32 + c.B5()
    ensures Pack(c.R5(), c.G6(), c.B5()) == c
  {
    var q := c.color / 32;
    assert c.color == q * 32 + c.B5();
    assert q == c.R5() * 64 + c.G6() by {
      DivDiv(c.color, 32, 64);
    }
  }

  /** Two colours with the same channels are the same colour. */
  lemma SameChannels(c: HighColor, d: HighColor)
    requires c.R5() == d.R5() && c.G6() == d.G6() && c.B5() == d.B5()
    ensures c == d
  {
    Components(c);
    Components(d);
  }

  // ---------------------------------------------------------------------
  // Properties
  // ---------------------------------------------------------------------

  /** trueColor puts exactly the caller's alpha in the alpha byte, its colour
      bytes do not depend on that alpha, and distinct inputs give distinct
      words. */
  lemma TrueColorAlpha(c: HighColor, d: HighColor, a: Uint8, b: Uint8)
    ensures Unpack(c.TrueColor(a)).a == a
    ensures c.TrueColor(a) % 0x100_0000 == c.TrueColor(b) % 0x100_0000
    ensures c.TrueColor(a) == d.TrueColor(b) ==> c == d && a == b
  {
    var p, q := Unpack(c.TrueColor(a)), Unpack(c.TrueColor(b));
    assert p.r == q.r && p.g == q.g && p.b == q.b;
    if c.TrueColor(a) == d.TrueColor(b) {
      var s := Unpack(d.TrueColor(b));
      assert p == s;
      SameChannels(c, d);
    }
  }

  /** Scaling by one is the identity and scaling by zero gives black. */
  lemma ScaleByOneOrZero(c: HighColor)
    ensures c.Scale(1, 1) == c
    ensures c.Scale(0, 1) == Black
  {
    SameChannels(c.Scale(1, 1), c);
    SameChannels(c.Scale(0, 1), Black);
  }

  /** Addition is commutative and black is its neutral element. */
  lemma AddCommutes(c: HighColor, d: HighColor)
    ensures c.Add(d) == d.Add(c)
    ensures c.Add(Black) == c
  {
    SameChannels(c.Add(d), d.Add(c));
    SameChannels(c.Add(Black), c);
  }

  /** The linear blend is symmetric and blending a colour with itself gives
      that colour. */
  lemma BlendCommutes(c: HighColor, d: HighColor)
    ensures c.LinearBlend(d) == d.LinearBlend(c)
    ensures c.LinearBlend(c) == c
  {
    SameChannels(c.LinearBlend(d), d.LinearBlend(c));
    SameChannels(c.LinearBlend(c), c);
  }

  /** The blend rounded once is never below the composition
      scale(1/2).add(other.scale(1/2)), which rounds each half separately,
      and exceeds it by at most one step per channel. */
  lemma BlendVersusScaleAdd(c: HighColor, d: HighColor)
    ensures var e, f := c.LinearBlend(d), c.Scale(1, 2).Add(d.Scale(1, 2));
      f.R5() <= e.R5() <= f.R5() + 1 && f.G6() <= e.G6() <= f.G6() + 1 && f.B5() <= e.B5() <= f.B5() + 1
  {
  }

  /** Interpolating a colour with itself gives that colour. */
  lemma InterpolationSelf(c: HighColor)
    ensures c.LinearInterpolation(c) == c
  {
    SameChannels(c.LinearInterpolation(c), c);
  }

  /** The 2:1 interpolation is not symmetric: black and the colour 3 (blue 3)
      interpolate to blue 1 one way and blue 2 the other. */
  lemma InterpolationNotSymmetric()
    ensures Black.LinearInterpolation(HighColor(3)) == HighColor(1)
    ensures HighColor(3).LinearInterpolation(Black) == HighColor(2)
  {
    var three := HighColor(3);
    assert three.R5() == 0 && three.G6() == 0 && three.B5() == 3;
    assert Black.LinearInterpolation(three) == Pack(0, 0, 1);
    assert three.LinearInterpolation(Black) == Pack(0, 0, 2);
  }

  /** c lies between a and b, channel by channel. */
  predicate Between(c: HighColor, a: HighColor, b: HighColor)
  {
    && (a.R5() <= c.R5() <= b.R5() || b.R5() <= c.R5() <= a.R5())
    && (a.G6() <= c.G6() <= b.G6() || b.G6() <= c.G6() <= a.G6())
    && (a.B5() <= c.B5() <= b.B5() || b.B5() <= c.B5() <= a.B5())
  }

  /** Every channel of a blend or an interpolation lies between the same
      channel of the two operands. */
  lemma MixesBetween(c: HighColor, d: HighColor)
    ensures Between(c.LinearBlend(d), c, d)
    ensures Between(c.LinearInterpolation(d), c, d)
    ensures Between(d.LinearInterpolation(c), c, d)
  {
  }
}
