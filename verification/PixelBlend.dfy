/**
 Blending of packed pixels: one word-wide addition and shift for all channels.
 Pixels are 32-bit words; a 16-bit pixel has its upper half zero.
 */
module PixelBlend {

  type word = bv32

  /** Red, green and blue in 5, 6 and 5 bits. */
  predicate Is565(p: word) { p <= 0xFFFF }

  /** Red, green and blue in a byte each; the top byte is zero. */
  predicate Is888(p: word) { p <= 0xFF_FFFF }

  datatype Alpha = Alpha0 | Alpha25 | Alpha50 | Alpha75 | Alpha100

  // The lowest bits of the channels.
  const LOW_565: word := 0x821
  const LOW_888: word := 0x10101

  function Half565(fg: word, bg: word): word { ((fg + bg + ((fg ^ bg) & LOW_565)) >> 1) & 0xFFFF }

  function Half888(fg: word, bg: word): word { (fg + bg + ((fg ^ bg) & LOW_888)) >> 1 }

  /** The colour of a 16-bit pixel after drawing over it. */
  function Blend565(alpha: Alpha, fg: word, bg: word): word {
    match alpha
    case Alpha0 => bg
    case Alpha25 => Half565(Half565(fg, bg), bg)
    case Alpha50 => Half565(fg, bg)
    case Alpha75 => Half565(fg, Half565(fg, bg))
    case Alpha100 => fg
  }

  function Blend888(alpha: Alpha, fg: word, bg: word): word {
    match alpha
    case Alpha0 => bg
    case Alpha25 => Half888(Half888(fg, bg), bg)
    case Alpha50 => Half888(fg, bg)
    case Alpha75 => Half888(fg, Half888(fg, bg))
    case Alpha100 => fg
  }

  datatype Channels = Channels(r: word, g: word, b: word)

  function Split565(p: word): Channels { Channels((p >> 11) & 0x1F, (p >> 5) & 0x3F, p & 0x1F) }

  function Red(p: word): word { (p >> 16) & 0xFF }

  function Green(p: word): word { (p >> 8) & 0xFF }

  function Blue(p: word): word { p & 0xFF }

  function Split888(p: word): Channels { Channels(Red(p), Green(p), Blue(p)) }

  /** The mean of two channel values, weighted in quarters and rounded up. */
  function Mean(alpha: Alpha, fg: word, bg: word): word {
    match alpha
    case Alpha0 => bg
    case Alpha25 => (fg + 3 * bg + 3) / 4
    case Alpha50 => (fg + bg + 1) / 2
    case Alpha75 => (3 * fg + bg + 3) / 4
    case Alpha100 => fg
  }

  function Mix(alpha: Alpha, fg: Channels, bg: Channels): Channels {
    Channels(Mean(alpha, fg.r, bg.r), Mean(alpha, fg.g, bg.g), Mean(alpha, fg.b, bg.b))
  }

  /** The mean of two channel values, rounded up. */
  function Up(x: word, y: word): word { (x + y + 1) >> 1 }

  lemma Red565(f: word, b: word)
    requires Is565(f) && Is565(b)
    ensures Split565(Half565(f, b)).r == Up(Split565(f).r, Split565(b).r)
  {
  }

  lemma Green565(f: word, b: word)
    requires Is565(f) && Is565(b)
    ensures Split565(Half565(f, b)).g == Up(Split565(f).g, Split565(b).g)
  {
  }

  lemma Blue565(f: word, b: word)
    requires Is565(f) && Is565(b)
    ensures Split565(Half565(f, b)).b == Up(Split565(f).b, Split565(b).b)
  {
  }

  lemma Half565Splits(f: word, b: word)
    requires Is565(f) && Is565(b)
    ensures Is565(Half565(f, b))
    ensures var x, y := Split565(f), Split565(b);
      Split565(Half565(f, b)) == Channels(Up(x.r, y.r), Up(x.g, y.g), Up(x.b, y.b))
  {
    Red565(f, b);
    Green565(f, b);
    Blue565(f, b);
  }

  /** Halving twice rounds up only once. */
  lemma UpIsMean(x: word, y: word)
    requires x <= 0xFF && y <= 0xFF
    ensures Up(x, y) == Mean(Alpha50, x, y)
    ensures Up(Up(x, y), y) == Mean(Alpha25, x, y)
    ensures Up(x, Up(x, y)) == Mean(Alpha75, x, y)
  {
    QuarterUp(x, y);
    QuarterUp(y, x);
    HalfUp(x, y);
  }

  lemma HalfUp(x: word, y: word)
    requires x <= 0xFF && y <= 0xFF
    ensures Up(x, y) == Up(y, x) == (x + y + 1) / 2
  {
  }

  lemma QuarterUp(x: word, y: word)
    requires x <= 0xFF && y <= 0xFF
    ensures Up(Up(x, y), y) == Up(y, Up(y, x)) == (x + 3 * y + 3) / 4
  {
  }

  lemma ChannelsFit(p: word)
    ensures var c, d := Split565(p), Split888(p);
      c.r <= 0xFF && c.g <= 0xFF && c.b <= 0xFF && d.r <= 0xFF && d.g <= 0xFF && d.b <= 0xFF
  {
  }

  lemma MixByHalves(x: Channels, y: Channels)
    requires x.r <= 0xFF && x.g <= 0xFF && x.b <= 0xFF && y.r <= 0xFF && y.g <= 0xFF && y.b <= 0xFF
    ensures Mix(Alpha25, x, y) == Channels(Up(Up(x.r, y.r), y.r), Up(Up(x.g, y.g), y.g), Up(Up(x.b, y.b), y.b))
    ensures Mix(Alpha50, x, y) == Channels(Up(x.r, y.r), Up(x.g, y.g), Up(x.b, y.b))
    ensures Mix(Alpha75, x, y) == Channels(Up(x.r, Up(x.r, y.r)), Up(x.g, Up(x.g, y.g)), Up(x.b, Up(x.b, y.b)))
    ensures Mix(Alpha0, x, y) == y && Mix(Alpha100, x, y) == x
  {
    UpIsMean(x.r, y.r);
    UpIsMean(x.g, y.g);
    UpIsMean(x.b, y.b);
  }

  /** Blending words is blending channels, with no carry between them. */
  lemma Blend565IsMix(alpha: Alpha, fg: word, bg: word)
    requires Is565(fg) && Is565(bg)
    ensures Is565(Blend565(alpha, fg, bg))
    ensures Split565(Blend565(alpha, fg, bg)) == Mix(alpha, Split565(fg), Split565(bg))
  {
    ChannelsFit(fg);
    ChannelsFit(bg);
    MixByHalves(Split565(fg), Split565(bg));
    var half := Half565(fg, bg);
    Half565Splits(fg, bg);
    Half565Splits(half, bg);
    Half565Splits(fg, half);
  }

  // ----- 32-bit pixels with any top byte -----

  /** Whether the top bytes differ in parity. */
  predicate Odd(f: word, b: word) { ((f ^ b) >> 24) & 1 != 0 }

  /** What their sum does to red. */
  function Flip(x: word, odd: bool): word { if odd then x ^ 0x80 else x }

  lemma FlipByShift(f: word, b: word, x: word)
    ensures x ^ ((((f ^ b) >> 24) & 1) << 7) == Flip(x, Odd(f, b))
  {
  }

  lemma RedBelowTop(f: word, b: word)
    ensures Red(Half888(f & 0xFF_FFFF, b & 0xFF_FFFF)) == Up(Red(f), Red(b))
  {
  }

  lemma RedFlips(f: word, b: word)
    ensures (Half888(f, b) >> 16) & 0xFF
         == ((Half888(f & 0xFF_FFFF, b & 0xFF_FFFF) >> 16) & 0xFF) ^ ((((f ^ b) >> 24) & 1) << 7)
  {
  }

  /** The half blend of any two words: only their top bytes can disturb a channel, and only red. */
  lemma HalfRed(f: word, b: word)
    ensures Red(Half888(f, b)) == Flip(Up(Red(f), Red(b)), Odd(f, b))
  {
    FlipByShift(f, b, Up(Red(f), Red(b)));
    RedBelowTop(f, b);
    RedFlips(f, b);
  }

  lemma HalfGreen(f: word, b: word)
    ensures Green(Half888(f, b)) == Up(Green(f), Green(b))
  {
  }

  lemma HalfBlue(f: word, b: word)
    ensures Blue(Half888(f, b)) == Up(Blue(f), Blue(b))
  {
  }

  /** The blends between the two colours. */
  predicate Partial(alpha: Alpha) { alpha in {Alpha25, Alpha50, Alpha75} }

  lemma GreenMixes(alpha: Alpha, fg: word, bg: word)
    requires Partial(alpha)
    ensures Green(Blend888(alpha, fg, bg)) == Mean(alpha, Green(fg), Green(bg))
  {
    HalfGreen(fg, bg);
    HalfGreen(Half888(fg, bg), bg);
    HalfGreen(fg, Half888(fg, bg));
    UpIsMean(Green(fg), Green(bg));
  }

  lemma BlueMixes(alpha: Alpha, fg: word, bg: word)
    requires Partial(alpha)
    ensures Blue(Blend888(alpha, fg, bg)) == Mean(alpha, Blue(fg), Blue(bg))
  {
    HalfBlue(fg, bg);
    HalfBlue(Half888(fg, bg), bg);
    HalfBlue(fg, Half888(fg, bg));
    UpIsMean(Blue(fg), Blue(bg));
  }

  lemma FlipShows(x: word, odd: bool)
    ensures Flip(x, odd) == x <==> !odd
  {
  }

  lemma EarlyFlipShows(x: word, y: word)
    requires x <= 0xFF && y <= 0xFF
    ensures Up(x ^ 0x80, y) != Up(x, y) && Up(x ^ 0x80, y) ^ 0x80 != Up(x, y)
  {
  }

  /** A spill always shows, in the last halving and in the one before it, whatever spills then. */
  lemma SpillShows(x: word, y: word, first: bool, second: bool)
    requires x <= 0xFF && y <= 0xFF
    ensures Flip(Up(Flip(x, first), y), second) == Up(x, y) <==> !first && !second
  {
    if first {
      EarlyFlipShows(x, y);
    } else {
      FlipShows(Up(x, y), second);
    }
  }

  lemma UpCommutes(x: word, y: word)
    ensures Up(x, y) == Up(y, x)
  {
  }

  /** Red after two halvings, the second with either colour. */
  lemma TwiceRed(f: word, b: word, c: word)
    ensures var half := Half888(f, b);
      Red(Half888(half, c)) == Flip(Up(Flip(Up(Red(f), Red(b)), Odd(f, b)), Red(c)), Odd(half, c))
  {
    HalfRed(f, b);
    HalfRed(Half888(f, b), c);
  }

  lemma HalfCommutes(f: word, b: word)
    ensures Half888(f, b) == Half888(b, f)
  {
  }

  /** Two halvings leave red right exactly if neither spills. */
  lemma TwiceRedRightIff(f: word, b: word, c: word)
    ensures Red(Half888(Half888(f, b), c)) == Up(Up(Red(f), Red(b)), Red(c))
       <==> !Odd(f, b) && !Odd(Half888(f, b), c)
  {
    TwiceRed(f, b, c);
    RedFits(f, b, c);
    SpillShows(Up(Red(f), Red(b)), Red(c), Odd(f, b), Odd(Half888(f, b), c));
  }

  lemma RedFits(f: word, b: word, c: word)
    ensures Red(f) <= 0xFF && Red(c) <= 0xFF && Up(Red(f), Red(b)) <= 0xFF
  {
  }

  /** The top bytes over which a blend still keeps to its channels. */
  predicate Harmless(alpha: Alpha, bg: word) {
    if alpha == Alpha50 then (bg >> 24) & 1 == 0 else (bg >> 24) & 3 == 0
  }

  lemma HarmlessBits(alpha: Alpha, bg: word)
    ensures Harmless(alpha, bg) <==> (bg >> 24) & 1 == 0 && (alpha == Alpha50 || (bg >> 25) & 1 == 0)
  {
  }

  /** What a half blend over a top byte leaves for a second one. */
  lemma TopAfterHalf(f: word, b: word)
    requires Is888(f)
    ensures Odd(f, b) <==> (b >> 24) & 1 != 0
    ensures !Odd(f, b) ==> Odd(Half888(f, b), b) == Odd(Half888(f, b), f) == ((b >> 25) & 1 != 0)
  {
  }

  lemma RedMixesIff(alpha: Alpha, fg: word, bg: word)
    requires Is888(fg) && Partial(alpha)
    ensures Red(Blend888(alpha, fg, bg)) == Mean(alpha, Red(fg), Red(bg)) <==> Harmless(alpha, bg)
  {
    HarmlessBits(alpha, bg);
    TopAfterHalf(fg, bg);
    UpIsMean(Red(fg), Red(bg));
    match alpha
    case Alpha25 =>
      TwiceRedRightIff(fg, bg, bg);
    case Alpha50 =>
      HalfRed(fg, bg);
      RedFits(fg, bg, bg);
      FlipShows(Up(Red(fg), Red(bg)), Odd(fg, bg));
    case Alpha75 =>
      TwiceRedRightIff(fg, bg, fg);
      HalfCommutes(fg, Half888(fg, bg));
      UpCommutes(Red(fg), Up(Red(fg), Red(bg)));
  }

  /**
   Blending over a pixel with any top byte mixes the channels exactly if that
   byte is even for the half blend, and a multiple of four for the two others;
   otherwise it spills into red.
   */
  lemma TopByteHarmlessIff(alpha: Alpha, fg: word, bg: word)
    requires Is888(fg) && Partial(alpha)
    ensures Split888(Blend888(alpha, fg, bg)) == Mix(alpha, Split888(fg), Split888(bg)) <==> Harmless(alpha, bg)
  {
    RedMixesIff(alpha, fg, bg);
    GreenMixes(alpha, fg, bg);
    BlueMixes(alpha, fg, bg);
  }

  /** An even top byte that only the half blend tolerates. */
  lemma EvenTopByteSpills()
    ensures Split888(Blend888(Alpha50, 0, 0x200_0000)) == Mix(Alpha50, Split888(0), Split888(0x200_0000))
    ensures Split888(Blend888(Alpha25, 0, 0x200_0000)) != Mix(Alpha25, Split888(0), Split888(0x200_0000))
    ensures Split888(Blend888(Alpha75, 0, 0x200_0000)) != Mix(Alpha75, Split888(0), Split888(0x200_0000))
  {
    TopByteHarmlessIff(Alpha25, 0, 0x200_0000);
    TopByteHarmlessIff(Alpha50, 0, 0x200_0000);
    TopByteHarmlessIff(Alpha75, 0, 0x200_0000);
  }

  lemma Half888Fits(f: word, b: word)
    requires Is888(f) && Is888(b)
    ensures Is888(Half888(f, b))
  {
  }

  lemma NoTopByte(alpha: Alpha, p: word)
    requires Is888(p)
    ensures Harmless(alpha, p)
  {
  }

  /** With no top byte, in particular, blending words is blending channels. */
  lemma Blend888IsMix(alpha: Alpha, fg: word, bg: word)
    requires Is888(fg) && Is888(bg)
    ensures Is888(Blend888(alpha, fg, bg))
    ensures Split888(Blend888(alpha, fg, bg)) == Mix(alpha, Split888(fg), Split888(bg))
  {
    var half := Half888(fg, bg);
    Half888Fits(fg, bg);
    Half888Fits(half, bg);
    Half888Fits(fg, half);
    if Partial(alpha) {
      NoTopByte(alpha, bg);
      TopByteHarmlessIff(alpha, fg, bg);
    }
  }
}
