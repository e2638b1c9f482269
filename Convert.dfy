/**
 * The static Convert class of the colour library: RGB <-> HSV, RGB <-> RYB
 * (the RYB direction by a smoothstep blend of hand-fitted corner values),
 * HSV <-> RYB by way of RGB, and the RYB hue wheel ("RYB-HSV") to RYB and
 * to RGB.  Every computation with doubles is done over exact reals; an
 * exception the source throws is an Err result.
 */
module Convert {
  import opened MathOps
  import opened ColorTypes

  /** The exceptions the conversions throw: ArgumentException and NotSupportedException. */
  datatype Error = InvalidArgument | NotSupported

  /** The outcome of a conversion: its value, or the exception it throws. */
  datatype Result<T> = Ok(value: T) | Err(error: Error)

  /** Red, green and blue as doubles, before their conversion to bytes. */
  datatype RgbDoubles = RgbDoubles(r: real, g: real, b: real)

  /** Red, yellow and blue as doubles, before their conversion to bytes. */
  datatype RybDoubles = RybDoubles(r: real, y: real, b: real)

  /** The conversion (byte)x is defined for every channel. */
  predicate RgbCastable(x: RgbDoubles) {
    -1.0 < x.r < 256.0 && -1.0 < x.g < 256.0 && -1.0 < x.b < 256.0
  }

  /** The conversion (byte)x is defined for every channel. */
  predicate RybCastable(x: RybDoubles) {
    -1.0 < x.r < 256.0 && -1.0 < x.y < 256.0 && -1.0 < x.b < 256.0
  }

  predicate Between(x: real, a: real, b: real) {
    (a <= x <= b) || (b <= x <= a)
  }

  predicate InUnit(t: real) {
    0.0 <= t <= 1.0
  }

  // ---------------------------------------------------------------------------
  // The smoothstep blend and the RYB -> RGB channel functions
  // ---------------------------------------------------------------------------

  /** The smoothstep weight t^2 (3 - 2t) of a t in [0, 1] lies in [0, 1], so the blend stays between its ends. */
  lemma SmoothstepBlendBetween(t: real, a: real, b: real)
    ensures InUnit(t) ==> Between(a + t * t * (3.0 - 2.0 * t) * (b - a), a, b)
  {
    if InUnit(t) {
      var w := t * t * (3.0 - 2.0 * t);
      MulNonNegative(t, t);
      MulNonNegative(t * t, 3.0 - 2.0 * t);
      assert 1.0 - w == (1.0 - t) * (1.0 - t) * (1.0 + 2.0 * t);
      MulNonNegative(1.0 - t, 1.0 - t);
      MulNonNegative((1.0 - t) * (1.0 - t), 1.0 + 2.0 * t);
      var d := b - a;
      if d >= 0.0 {
        MulNonNegative(w, d);
        MulNonNegative(1.0 - w, d);
        assert d - w * d == (1.0 - w) * d;
      } else {
        MulNonNegative(w, -d);
        MulNonNegative(1.0 - w, -d);
        assert w * d - d == (1.0 - w) * -d;
      }
    }
  }

  /**
   * Convert.Cubic: the smoothstep blend a + t^2 (3 - 2t) (b - a).  It starts
   * at a, ends at b, is constant when a and b agree, and for t in [0, 1]
   * never leaves the interval between a and b.
   */
  function Cubic(t: real, a: real, b: real): (r: real)
    ensures t == 0.0 ==> r == a
    ensures t == 1.0 ==> r == b
    ensures a == b ==> r == a
    ensures InUnit(t) ==> Between(r, a, b)
  {
    var weight := t * t * (3.0 - 2.0 * t);
    SmoothstepBlendBetween(t, a, b);
    a + weight * (b - a)
  }

  /**
   * The responses of one output channel at the eight corners of the RYB
   * cube; cRYB is the corner with red R, yellow Y and blue B (each 0 or 1).
   */
  datatype Corners = Corners(c000: real, c001: real, c010: real, c011: real,
                             c100: real, c101: real, c110: real, c111: real)

  predicate UnitCorners(c: Corners) {
    InUnit(c.c000) && InUnit(c.c001) && InUnit(c.c010) && InUnit(c.c011) &&
    InUnit(c.c100) && InUnit(c.c101) && InUnit(c.c110) && InUnit(c.c111)
  }

  /**
   * The nested blend the three channel functions share: along blue within
   * each of the four (red, yellow) corner pairs, then along yellow, then
   * along red.  With corners and coordinates in [0, 1] it stays in [0, 1].
   */
  function SmoothBlend(tr: real, ty: real, tb: real, c: Corners): (x: real)
    ensures InUnit(tr) && InUnit(ty) && InUnit(tb) && UnitCorners(c) ==> InUnit(x)
  {
    var x0 := Cubic(tb, c.c000, c.c001);
    var x1 := Cubic(tb, c.c010, c.c011);
    var x2 := Cubic(tb, c.c100, c.c101);
    var x3 := Cubic(tb, c.c110, c.c111);
    var y0 := Cubic(ty, x0, x1);
    var y1 := Cubic(ty, x2, x3);
    Cubic(tr, y0, y1)
  }

  /** The control values of GetRedFromRyb. */
  const RedCorners := Corners(1.0, 0.163, 1.0, 0.0, 1.0, 0.5, 1.0, 0.2)

  /** The control values of GetGreenFromRyb. */
  const GreenCorners := Corners(1.0, 0.373, 1.0, 0.66, 0.0, 0.0, 0.5, 0.094)

  /** The control values of GetBlueFromRyb. */
  const BlueCorners := Corners(1.0, 0.6, 0.0, 0.2, 0.0, 0.5, 0.0, 0.0)

  predicate InByteRange(x: real) {
    0.0 <= x <= 255.0
  }

  /** Scaling a blend value in [0, 1] by 255 and rounding up gives an integer in 0..255. */
  lemma ScaledCeilingInRange(x: real)
    ensures InUnit(x) ==> 0 <= Ceiling(255.0 * x) <= 255
  {
  }

  /**
   * The shared shape of the three channel functions: the inputs scaled to
   * [0, 1], blended over one table of control values, scaled back by 255
   * and rounded up with Math.Ceiling; in 0..255 for inputs in byte range.
   */
  function BlendChannel(iR: real, iY: real, iB: real, c: Corners): (n: int)
    ensures InByteRange(iR) && InByteRange(iY) && InByteRange(iB) && UnitCorners(c) ==> 0 <= n <= 255
  {
    var x := SmoothBlend(iR / 255.0, iY / 255.0, iB / 255.0, c);
    ScaledCeilingInRange(x);
    Ceiling(255.0 * x)
  }

  /** GetRedFromRyb: the blend over the red control values. */
  function GetRedFromRyb(iR: real, iY: real, iB: real): (r: int)
    ensures InByteRange(iR) && InByteRange(iY) && InByteRange(iB) ==> 0 <= r <= 255
  {
    BlendChannel(iR, iY, iB, RedCorners)
  }

  /** GetGreenFromRyb: the blend over the green control values. */
  function GetGreenFromRyb(iR: real, iY: real, iB: real): (g: int)
    ensures InByteRange(iR) && InByteRange(iY) && InByteRange(iB) ==> 0 <= g <= 255
  {
    BlendChannel(iR, iY, iB, GreenCorners)
  }

  /** GetBlueFromRyb: the blend over the blue control values. */
  function GetBlueFromRyb(iR: real, iY: real, iB: real): (b: int)
    ensures InByteRange(iR) && InByteRange(iY) && InByteRange(iB) ==> 0 <= b <= 255
  {
    BlendChannel(iR, iY, iB, BlueCorners)
  }

  /**
   * RybToRgb: alpha 255, and each channel is the channel function's value
   * itself, so the conversion to a byte never wraps.
   */
  function RybToRgb(c: RybColor): (rgb: Color)
    ensures rgb.a == 255
    ensures rgb.r == GetRedFromRyb(c.r as real, c.y as real, c.b as real)
    ensures rgb.g == GetGreenFromRyb(c.r as real, c.y as real, c.b as real)
    ensures rgb.b == GetBlueFromRyb(c.r as real, c.y as real, c.b as real)
  {
    var r := GetRedFromRyb(c.r as real, c.y as real, c.b as real);
    var g := GetGreenFromRyb(c.r as real, c.y as real, c.b as real);
    var b := GetBlueFromRyb(c.r as real, c.y as real, c.b as real);
    Color(255, ByteCast(r as real), ByteCast(g as real), ByteCast(b as real))
  }

  // ---------------------------------------------------------------------------
  // RGB -> HSV
  // ---------------------------------------------------------------------------

  /** The largest channel, Math.Max(Math.Max(r, g), b) of ColorUtils.cs:81. */
  function MaxChannel(c: Color): (m: byte)
    ensures m >= c.r && m >= c.g && m >= c.b
    ensures m == c.r || m == c.g || m == c.b
  {
    MaxByte(MaxByte(c.r, c.g), c.b)
  }

  /** The smallest channel, Math.Min(Math.Min(r, g), b) of ColorUtils.cs:82. */
  function MinChannel(c: Color): (m: byte)
    ensures m <= c.r && m <= c.g && m <= c.b
    ensures m == c.r || m == c.g || m == c.b
  {
    MinByte(MinByte(c.r, c.g), c.b)
  }

  /** 60 a / d lies within 60 of zero when |a| <= d, strictly on a side where the bound is strict. */
  lemma HueOffsetBounds(a: int, d: int)
    requires d > 0 && -d <= a <= d
    ensures -60.0 <= (60 * a) as real / d as real <= 60.0
    ensures -d < a ==> -60.0 < (60 * a) as real / d as real
    ensures a < d ==> (60 * a) as real / d as real < 60.0
    ensures 0 <= a ==> 0.0 <= (60 * a) as real / d as real
    ensures a < 0 ==> (60 * a) as real / d as real < 0.0
  {
    var x := (60 * a) as real;
    var m := d as real;
    BelowQuotient(x, m, -60.0);
    AboveQuotient(x, m, 60.0);
    BelowQuotient(x, m, 0.0);
    AboveQuotient(x, m, 0.0);
  }

  /**
   * The red-dominant hue of ColorUtils.cs:90: (60 a / d + 360) % 360 is 60 a / d for
   * a >= 0 and 60 a / d + 360 for a < 0, so it lies in [0, 60] or [300, 360).
   */
  lemma RedDominantHue(a: int, d: int)
    requires d > 0 && -d <= a <= d
    ensures var h := FMod((60 * a) as real / d as real + 360.0, 360.0);
      (0 <= a ==> h == (60 * a) as real / d as real) &&
      (a < 0 ==> h == (60 * a) as real / d as real + 360.0)
  {
    HueOffsetBounds(a, d);
  }

  /**
   * The hue branch of RgbToHsv (before FromHsv reduces it again): 0 for a
   * grey; otherwise the dominant channel picks the 120-degree band around
   * its own hue.  The final throw is unreachable.
   */
  function RgbHue(c: Color): (h: Result<real>)
    ensures h.Ok?
    ensures 0.0 <= h.value < 360.0
    ensures MaxChannel(c) == MinChannel(c) ==> h.value == 0.0
    ensures MaxChannel(c) != MinChannel(c) && MaxChannel(c) == c.r ==>
              h.value <= 60.0 || 300.0 <= h.value
    ensures MaxChannel(c) != MinChannel(c) && MaxChannel(c) != c.r && MaxChannel(c) == c.g ==>
              60.0 < h.value <= 180.0
    ensures MaxChannel(c) != MinChannel(c) && MaxChannel(c) != c.r && MaxChannel(c) != c.g ==>
              180.0 < h.value < 300.0
  {
    var max := MaxChannel(c);
    var min := MinChannel(c);
    if max == min then
      Ok(0.0)
    else if max == c.r then
      HueOffsetBounds(c.g - c.b, max - min);
      RedDominantHue(c.g - c.b, max - min);
      Ok(FMod((60 * (c.g - c.b)) as real / (max as real - min as real) + 360.0, 360.0))
    else if max == c.g then
      HueOffsetBounds(c.b - c.r, max - min);
      Ok((60 * (c.b - c.r)) as real / (max as real - min as real) + 120.0)
    else if max == c.b then
      HueOffsetBounds(c.r - c.g, max - min);
      Ok((60 * (c.r - c.g)) as real / (max as real - min as real) + 240.0)
    else
      Err(InvalidArgument)
  }

  /** (max - min) / max lies in [0, 1] and is 0 exactly when max == min. */
  lemma SaturationBounds(max: byte, min: byte)
    requires 0 <= min <= max && 0 < max
    ensures 0.0 <= (max - min) as real / max as real <= 1.0
    ensures (max - min) as real / max as real == 0.0 <==> max == min
  {
    var x := (max - min) as real;
    QuotientSign(x, max as real);
    AboveQuotient(x, max as real, 1.0);
    AboveQuotient(x, max as real, 0.0);
  }

  /**
   * RgbToHsv: never throws; H in [0, 360), S in [0, 1], V = max / 255; a
   * grey has hue 0, and the saturation is 0 exactly for a grey.
   */
  function RgbToHsv(c: Color): (r: Result<HsvColor>)
    ensures r.Ok?
    ensures 0.0 <= r.value.h < 360.0
    ensures 0.0 <= r.value.s <= 1.0
    ensures r.value.h == RgbHue(c).value
    ensures r.value.s == if MaxChannel(c) == 0 then 0.0
                         else (MaxChannel(c) - MinChannel(c)) as real / MaxChannel(c) as real
    ensures r.value.v == MaxChannel(c) as real / 255.0
    ensures MaxChannel(c) == MinChannel(c) ==> r.value.h == 0.0
    ensures r.value.s == 0.0 <==> MaxChannel(c) == MinChannel(c)
  {
    var max := MaxChannel(c);
    var min := MinChannel(c);
    match RgbHue(c)
    case Err(e) => Err(e)
    case Ok(h) =>
      var s := if max == 0 then 0.0 else (max - min) as real / max as real;
      var v := max as real / 255.0;
      if max != 0 then SaturationBounds(max, min); Ok(FromHsv(h, s, v))
      else Ok(FromHsv(h, s, v))
  }

  // ---------------------------------------------------------------------------
  // HSV -> RGB
  // ---------------------------------------------------------------------------

  /** The C# remainder of a whole number by 6 is a whole number in (-6, 6) with the dividend's sign. */
  lemma WholeModSix(k: int)
    ensures var hi := FMod(k as real, 6.0);
      IsIntegral(hi) && -6.0 < hi < 6.0 && (0 <= k ==> 0.0 <= hi) && (-6 < k < 6 ==> hi == k as real)
  {
    var hi := FMod(k as real, 6.0);
    var j := ((k as real - hi) / 6.0).Floor;
    assert (k as real - hi) / 6.0 == j as real;
    assert hi == (k - 6 * j) as real;
  }

  /**
   * The sector of ColorUtils.cs:160, Math.Floor(H / 60) % 6, still a double: a whole
   * number below 6, not negative for a hue that is not negative, and the
   * sector floor(H / 60) itself for a hue in [0, 360).
   */
  function HueSector(h: real): (hi: real)
    ensures IsIntegral(hi) && hi < 6.0
    ensures 0.0 <= h ==> 0.0 <= hi
    ensures 0.0 <= h < 360.0 ==> hi == Floor(h / 60.0) as real
  {
    var k := Floor(h / 60.0);
    WholeModSix(k);
    FMod(k as real, 6.0)
  }

  /** The position within the sector, ColorUtils.cs:161: in [0, 1). */
  function HueFraction(h: real): (f: real)
    ensures 0.0 <= f < 1.0
    ensures h == 60.0 * (Floor(h / 60.0) as real + f)
  {
    h / 60.0 - Floor(h / 60.0) as real
  }

  /** The switch of ColorUtils.cs:167-189: which of V, p, q and t go to red, green and blue. */
  function SectorSwitch(sector: byte, v: real, p: real, q: real, t: real): (x: Result<RgbDoubles>)
    ensures x.Ok? <==> sector <= 5
  {
    match sector
    case 0 => Ok(RgbDoubles(v, t, p))
    case 1 => Ok(RgbDoubles(q, v, t))
    case 2 => Ok(RgbDoubles(p, v, t))
    case 3 => Ok(RgbDoubles(p, q, v))
    case 4 => Ok(RgbDoubles(t, p, v))
    case 5 => Ok(RgbDoubles(v, p, q))
    case _ => Err(InvalidArgument)
  }

  /** The value p, q or t of ColorUtils.cs:162-164: rounded to a whole number first, then scaled by 255. */
  function RoundThenScale(x: real): (r: real)
    ensures IsIntegral(r / 255.0)
    ensures -127.5 <= r - 255.0 * x <= 127.5
  {
    RoundHalfEven(x) as real * 255.0
  }

  /** Lines 162-189 of HsvToRgb for a given sector, V, S and position f in the sector. */
  function HsvSwitch(sector: byte, v: real, s: real, f: real): (x: Result<RgbDoubles>)
    ensures x.Ok? <==> sector <= 5
  {
    var p := RoundThenScale(v * (1.0 - s));
    var q := RoundThenScale(v * (1.0 - s * f));
    var t := RoundThenScale(v * (1.0 - s * (1.0 - f)));
    SectorSwitch(sector, v, p, q, t)
  }

  /** Lines 160-189 of HsvToRgb, up to the conversions to bytes. */
  function HsvToRgbChannels(c: HsvColor): (x: Result<RgbDoubles>)
    requires -1.0 < HueSector(c.h)
    ensures x.Ok?
  {
    HsvSwitch(ByteCast(HueSector(c.h)), c.v, c.s, HueFraction(c.h))
  }

  /** Every byte conversion HsvToRgb performs is defined. */
  predicate HsvToRgbDefined(c: HsvColor) {
    -1.0 < HueSector(c.h) &&
    (HsvToRgbChannels(c).Ok? ==> RgbCastable(HsvToRgbChannels(c).value))
  }

  /**
   * HsvToRgb, as the source has it: alpha 255, and the default: throw of the
   * sector switch is unreachable however the hue is reduced.
   */
  function HsvToRgb(c: HsvColor): (r: Result<Color>)
    requires HsvToRgbDefined(c)
    ensures r.Ok? && r.value.a == 255
  {
    match HsvToRgbChannels(c)
    case Err(e) => Err(e)
    case Ok(x) => Ok(Color(255, ByteCast(x.r), ByteCast(x.g), ByteCast(x.b)))
  }

  /** The sector switch as the classic algorithm has it: sector 1 puts p, not t, in blue. */
  function SectorSwitchIntended(sector: byte, v: real, p: real, q: real, t: real): (x: Result<RgbDoubles>)
    ensures x.Ok? <==> sector <= 5
  {
    match sector
    case 0 => Ok(RgbDoubles(v, t, p))
    case 1 => Ok(RgbDoubles(q, v, p))
    case 2 => Ok(RgbDoubles(p, v, t))
    case 3 => Ok(RgbDoubles(p, q, v))
    case 4 => Ok(RgbDoubles(t, p, v))
    case 5 => Ok(RgbDoubles(v, p, q))
    case _ => Err(InvalidArgument)
  }

  /** The value p, q, t or V scaled by 255 first and then rounded. */
  function ScaleThenRound(x: real): (r: real)
    ensures IsIntegral(r)
    ensures -0.5 <= r - 255.0 * x <= 0.5
  {
    RoundHalfEven(255.0 * x) as real
  }

  /** The corrected form of ColorUtils.cs:162-189 for a given sector, V, S and position f in the sector. */
  function HsvSwitchIntended(sector: byte, v: real, s: real, f: real): (x: Result<RgbDoubles>)
    ensures x.Ok? <==> sector <= 5
  {
    var p := ScaleThenRound(v * (1.0 - s));
    var q := ScaleThenRound(v * (1.0 - s * f));
    var t := ScaleThenRound(v * (1.0 - s * (1.0 - f)));
    SectorSwitchIntended(sector, ScaleThenRound(v), p, q, t)
  }

  /** The channels of the corrected HSV -> RGB conversion, before the conversions to bytes. */
  function HsvToRgbIntendedChannels(c: HsvColor): (x: Result<RgbDoubles>)
    requires -1.0 < HueSector(c.h)
    ensures x.Ok?
  {
    HsvSwitchIntended(ByteCast(HueSector(c.h)), c.v, c.s, HueFraction(c.h))
  }

  /** Every byte conversion of the corrected HSV -> RGB conversion is defined. */
  predicate HsvToRgbIntendedDefined(c: HsvColor) {
    -1.0 < HueSector(c.h) &&
    (HsvToRgbIntendedChannels(c).Ok? ==> RgbCastable(HsvToRgbIntendedChannels(c).value))
  }

  /**
   * The corrected HSV -> RGB conversion: every channel is scaled by 255
   * and then rounded (V included), and sector 1 takes p for blue.
   */
  function HsvToRgbIntended(c: HsvColor): (r: Result<Color>)
    requires HsvToRgbIntendedDefined(c)
    ensures r.Ok? && r.value.a == 255
  {
    match HsvToRgbIntendedChannels(c)
    case Err(e) => Err(e)
    case Ok(x) => Ok(Color(255, ByteCast(x.r), ByteCast(x.g), ByteCast(x.b)))
  }

  // ---------------------------------------------------------------------------
  // RGB -> RYB and the compositions through it
  // ---------------------------------------------------------------------------

  /** RgbToRyb: the live body throws NotSupportedException for every colour. */
  function RgbToRyb(c: Color): (r: Result<RybColor>)
    ensures r == Err(NotSupported)
  {
    Err(NotSupported)
  }

  /** HsvToRyb = RgbToRyb after HsvToRgb (ColorUtils.cs:196): for every HSV colour it reaches, NotSupported. */
  function HsvToRyb(c: HsvColor): (r: Result<RybColor>)
    requires HsvToRgbDefined(c)
    ensures r == Err(NotSupported)
  {
    match HsvToRgb(c)
    case Err(e) => Err(e)
    case Ok(rgb) => RgbToRyb(rgb)
  }

  /** RybToHsv = RgbToHsv after RybToRgb: never throws, and H, S, V keep their ranges. */
  function RybToHsv(c: RybColor): (r: Result<HsvColor>)
    ensures r.Ok?
    ensures 0.0 <= r.value.h < 360.0 && 0.0 <= r.value.s <= 1.0 && 0.0 <= r.value.v <= 1.0
  {
    RgbToHsv(RybToRgb(c))
  }

  // ---------------------------------------------------------------------------
  // The RYB hue wheel
  // ---------------------------------------------------------------------------

  /**
   * The switch value (byte)(h / 60) of ColorUtils.cs:215: truncation, so every hue in
   * (-60, 0) falls in sector 0, and the sector is at most 5 exactly when
   * h < 360.
   */
  function RybHsvSector(h: real): (k: byte)
    requires -60.0 < h < 15360.0
    ensures h < 0.0 ==> k == 0
    ensures 0.0 <= h ==> k == Floor(h / 60.0)
    ensures k <= 5 <==> h < 360.0
  {
    ByteCast(h / 60.0)
  }

  /** The ramping channel of the RYB wheel at weight w: 255 V w + 255 (1 - V). */
  function Ramp(v: real, w: real): (r: real)
    ensures w == 0.0 ==> r == 255.0 * (1.0 - v)
    ensures w == 1.0 ==> r == 255.0
  {
    (255.0 * v) * w + 255.0 * (1.0 - v)
  }

  /** The switch of ColorUtils.cs:215-249: one primary at 255, one ramping, the third darkened by V. */
  function RybHsvSwitch(k: byte, h: real, v: real): (x: Result<RybDoubles>)
    ensures x.Ok? <==> k <= 5
  {
    match k
    case 0 =>
      var r := 255.0;
      var y := Ramp(v, h / 60.0);
      Ok(RybDoubles(r, y, MaxReal(r, y) * (1.0 - v)))
    case 1 =>
      var r := Ramp(v, 1.0 - (h - 60.0) / 60.0);
      var y := 255.0;
      Ok(RybDoubles(r, y, MaxReal(r, y) * (1.0 - v)))
    case 2 =>
      var y := 255.0;
      var b := Ramp(v, (h - 120.0) / 60.0);
      Ok(RybDoubles(MaxReal(y, b) * (1.0 - v), y, b))
    case 3 =>
      var y := Ramp(v, 1.0 - (h - 180.0) / 60.0);
      var b := 255.0;
      Ok(RybDoubles(MaxReal(y, b) * (1.0 - v), y, b))
    case 4 =>
      var b := 255.0;
      var r := Ramp(v, (h - 240.0) / 60.0);
      Ok(RybDoubles(r, MaxReal(r, b) * (1.0 - v), b))
    case 5 =>
      var b := Ramp(v, 1.0 - (h - 300.0) / 60.0);
      var r := 255.0;
      Ok(RybDoubles(r, MaxReal(r, b) * (1.0 - v), b))
    case _ =>
      Err(InvalidArgument)
  }

  /** The rescale of ColorUtils.cs:250-252: every channel multiplied by s. */
  function ScaleRyb(x: RybDoubles, s: real): (r: RybDoubles)
    ensures s == 1.0 ==> r == x
    ensures s == 0.0 ==> r == RybDoubles(0.0, 0.0, 0.0)
  {
    RybDoubles(x.r * s, x.y * s, x.b * s)
  }

  /** Lines 215-252 of RybHsvToRyb: the sector switch, then every channel scaled by s. */
  function RybHsvChannels(h: real, s: real, v: real): (x: Result<RybDoubles>)
    requires -60.0 < h < 15360.0
    ensures x.Ok? <==> h < 360.0
  {
    match RybHsvSwitch(RybHsvSector(h), h, v)
    case Err(e) => Err(e)
    case Ok(u) => Ok(ScaleRyb(u, s))
  }

  /** Every byte conversion RybHsvToRyb performs is defined. */
  predicate RybHsvToRybDefined(h: real, s: real, v: real) {
    -60.0 < h < 15360.0 &&
    (RybHsvChannels(h, s, v).Ok? ==> RybCastable(RybHsvChannels(h, s, v).value))
  }

  /**
   * RybHsvToRyb: throws ArgumentException exactly for the hues 360 and above
   * (the hues in (-60, 0) are accepted as sector 0).
   */
  function RybHsvToRyb(h: real, s: real, v: real): (r: Result<RybColor>)
    requires RybHsvToRybDefined(h, s, v)
    ensures r.Ok? <==> h < 360.0
    ensures r.Err? ==> r.error == InvalidArgument
  {
    match RybHsvChannels(h, s, v)
    case Err(e) => Err(e)
    case Ok(x) => Ok(FromRyb(ByteCast(x.r), ByteCast(x.y), ByteCast(x.b)))
  }

  /** RybHsvToRgb = RybToRgb after RybHsvToRyb: the same error cases, a colour with alpha 255 otherwise. */
  function RybHsvToRgb(h: real, s: real, v: real): (r: Result<Color>)
    requires RybHsvToRybDefined(h, s, v)
    ensures r.Ok? <==> h < 360.0
    ensures r.Err? ==> r.error == InvalidArgument
    ensures r.Ok? ==> r.value.a == 255
  {
    match RybHsvToRyb(h, s, v)
    case Err(e) => Err(e)
    case Ok(ryb) => Ok(RybToRgb(ryb))
  }
}
