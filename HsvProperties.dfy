/**
 * What RgbToHsv and the HSV -> RGB conversion as written do with valid
 * colours: a grey has hue and saturation 0, and because HsvToRgb rounds
 * before it scales, every channel it produces is 0, 1 or 255.
 */
module HsvProperties {
  import opened MathOps
  import opened ColorTypes
  import opened Convert

  /** RgbToHsv of a grey (all three channels equal): hue 0, saturation 0, value the grey level over 255. */
  lemma RgbToHsvGrey(c: Color)
    requires c.r == c.g == c.b
    ensures RgbToHsv(c) == Ok(HsvColor(0.0, 0.0, c.r as real / 255.0))
  {
  }

  /** The grey (128, 128, 128) becomes (0, 0, 128/255). */
  lemma RgbToHsvMidGrey()
    ensures RgbToHsv(Color(255, 128, 128, 128)) == Ok(HsvColor(0.0, 0.0, 128.0 / 255.0))
  {
    RgbToHsvGrey(Color(255, 128, 128, 128));
  }

  /** Pure red (255, 0, 0) becomes hue 0 at full saturation and value. */
  lemma RgbToHsvRed()
    ensures RgbToHsv(Color(255, 255, 0, 0)) == Ok(HsvColor(0.0, 1.0, 1.0))
  {
    RedDominantHue(0, 255);
  }

  /** The product of two numbers in [0, 1] lies in [0, 1]. */
  lemma UnitProduct(a: real, b: real)
    requires InUnit(a) && InUnit(b)
    ensures InUnit(a * b)
  {
    MulNonNegative(a, b);
    MulNonNegative(a, 1.0 - b);
    assert a - a * b == a * (1.0 - b);
  }

  /** For V and S in [0, 1] and f in [0, 1) the three values HsvToRgb rounds all lie in [0, 1]. */
  lemma UnitFactors(v: real, s: real, f: real)
    requires InUnit(v) && InUnit(s) && 0.0 <= f < 1.0
    ensures InUnit(v * (1.0 - s))
    ensures InUnit(v * (1.0 - s * f))
    ensures InUnit(v * (1.0 - s * (1.0 - f)))
  {
    UnitProduct(v, 1.0 - s);
    UnitProduct(s, f);
    UnitProduct(v, 1.0 - s * f);
    UnitProduct(s, 1.0 - f);
    UnitProduct(v, 1.0 - s * (1.0 - f));
  }

  /** The byte that RoundThenScale of a value in [0, 1] becomes: 255 above one half, 0 up to it. */
  function HalfThreshold(x: real): byte {
    if x > 0.5 then 255 else 0
  }

  /** The byte (byte)V of a value V in [0, 1]: 1 for V == 1 and 0 otherwise. */
  function ValueByte(v: real): byte {
    if v == 1.0 then 1 else 0
  }

  /**
   * Rounding a value in [0, 1] to a whole number and then scaling by 255
   * gives exactly 0 or 255: 255 above one half, 0 up to one half (a tie
   * rounds to the even 0).
   */
  lemma RoundThenScaleOfUnit(x: real)
    requires InUnit(x)
    ensures RoundThenScale(x) == HalfThreshold(x) as real
    ensures ByteCast(RoundThenScale(x)) == HalfThreshold(x)
  {
    if x < 1.0 {
      assert x.Floor == 0;
    } else {
      assert x.Floor == 1;
    }
  }

  /** The sector of a hue in [0, 360) is floor(H / 60), a whole number in 0..5. */
  lemma SectorOfValidHue(h: real)
    requires 0.0 <= h < 360.0
    ensures 0 <= Floor(h / 60.0) <= 5
    ensures HueSector(h) == Floor(h / 60.0) as real
    ensures ByteCast(HueSector(h)) == Floor(h / 60.0)
  {
  }

  /** For a hue in [0, 360) the channels of ColorUtils.cs:160-189 are those of sector floor(H / 60). */
  lemma HsvToRgbChannelsOfHue(c: HsvColor)
    requires 0.0 <= c.h < 360.0
    ensures 0 <= Floor(c.h / 60.0) <= 5
    ensures -1.0 < HueSector(c.h)
    ensures HsvToRgbChannels(c) == HsvSwitch(Floor(c.h / 60.0), c.v, c.s, HueFraction(c.h))
  {
    SectorOfValidHue(c.h);
  }

  /**
   * The sector switch over V and the thresholds of the three values
   * ColorUtils.cs:162-164 rounds: what ColorUtils.cs:162-189 compute for V and S in [0, 1].
   */
  function QuantisedSwitch(k: byte, v: real, s: real, f: real): Result<RgbDoubles> {
    SectorSwitch(k, v, HalfThreshold(v * (1.0 - s)) as real,
                 HalfThreshold(v * (1.0 - s * f)) as real,
                 HalfThreshold(v * (1.0 - s * (1.0 - f))) as real)
  }

  /**
   * The colour HsvToRgb as written makes in sector k: (R, G, B) is (V, t, p),
   * (q, V, t), (p, V, t), (p, q, V), (t, p, V) or (V, p, q), where p, q and t
   * are the thresholds 0 or 255 and V becomes the byte (byte)V.
   */
  function QuantisedColor(k: int, v: real, s: real, f: real): Color
    requires 0 <= k <= 5
  {
    var vb := ValueByte(v);
    var p := HalfThreshold(v * (1.0 - s));
    var q := HalfThreshold(v * (1.0 - s * f));
    var t := HalfThreshold(v * (1.0 - s * (1.0 - f)));
    if k == 0 then Color(255, vb, t, p)
    else if k == 1 then Color(255, q, vb, t)
    else if k == 2 then Color(255, p, vb, t)
    else if k == 3 then Color(255, p, q, vb)
    else if k == 4 then Color(255, t, p, vb)
    else Color(255, vb, p, q)
  }

  /** Lines 162-189 for V and S in [0, 1] and f in [0, 1) round p, q and t to their thresholds. */
  lemma SwitchOfUnit(k: byte, v: real, s: real, f: real)
    requires InUnit(v) && InUnit(s) && 0.0 <= f < 1.0
    ensures HsvSwitch(k, v, s, f) == QuantisedSwitch(k, v, s, f)
  {
    UnitFactors(v, s, f);
    RoundThenScaleOfUnit(v * (1.0 - s));
    RoundThenScaleOfUnit(v * (1.0 - s * f));
    RoundThenScaleOfUnit(v * (1.0 - s * (1.0 - f)));
  }

  /**
   * For H in [0, 360) and S, V in [0, 1] the channels before the byte
   * conversions are the sector switch of floor(H / 60) over V and the
   * thresholds p, q and t.
   */
  lemma HsvToRgbChannelsOfValid(c: HsvColor)
    requires 0.0 <= c.h < 360.0 && InUnit(c.s) && InUnit(c.v)
    ensures 0 <= Floor(c.h / 60.0) <= 5
    ensures -1.0 < HueSector(c.h)
    ensures HsvToRgbChannels(c) == QuantisedSwitch(Floor(c.h / 60.0), c.v, c.s, HueFraction(c.h))
  {
    HsvToRgbChannelsOfHue(c);
    SwitchOfUnit(Floor(c.h / 60.0), c.v, c.s, HueFraction(c.h));
  }

  /** The byte conversions of the quantised switch are defined and give the quantised colour. */
  lemma QuantisedSwitchCast(k: int, v: real, s: real, f: real)
    requires 0 <= k <= 5 && InUnit(v)
    ensures QuantisedSwitch(k, v, s, f).Ok?
    ensures RgbCastable(QuantisedSwitch(k, v, s, f).value)
    ensures Color(255, ByteCast(QuantisedSwitch(k, v, s, f).value.r),
                  ByteCast(QuantisedSwitch(k, v, s, f).value.g),
                  ByteCast(QuantisedSwitch(k, v, s, f).value.b)) == QuantisedColor(k, v, s, f)
  {
    assert ByteCast(v) == ValueByte(v);
  }

  /**
   * HsvToRgb as written, for H in [0, 360) and S, V in [0, 1]: every byte
   * conversion is defined, the default: branch is not taken, and the colour
   * is the quantised colour of sector floor(H / 60), whose p, q and t are
   * each 0 or 255 and whose V channel is (byte)V, 0 or 1.
   */
  lemma HsvToRgbQuantised(c: HsvColor)
    requires 0.0 <= c.h < 360.0 && InUnit(c.s) && InUnit(c.v)
    ensures HsvToRgbDefined(c)
    ensures 0 <= Floor(c.h / 60.0) <= 5
    ensures HsvToRgb(c) == Ok(QuantisedColor(Floor(c.h / 60.0), c.v, c.s, HueFraction(c.h)))
  {
    HsvToRgbChannelsOfValid(c);
    QuantisedSwitchCast(Floor(c.h / 60.0), c.v, c.s, HueFraction(c.h));
  }

  /** Every channel of a quantised colour is 0, 1 or 255. */
  lemma QuantisedColorValues(k: int, v: real, s: real, f: real)
    requires 0 <= k <= 5
    ensures var x := QuantisedColor(k, v, s, f);
            (x.r == 0 || x.r == 1 || x.r == 255) &&
            (x.g == 0 || x.g == 1 || x.g == 255) &&
            (x.b == 0 || x.b == 1 || x.b == 255)
  {
  }

  /** Every channel HsvToRgb produces for a valid HSV colour is 0, 1 or 255. */
  lemma HsvToRgbChannelValues(c: HsvColor)
    requires 0.0 <= c.h < 360.0 && InUnit(c.s) && InUnit(c.v)
    ensures HsvToRgbDefined(c)
    ensures var x := HsvToRgb(c).value;
            (x.r == 0 || x.r == 1 || x.r == 255) &&
            (x.g == 0 || x.g == 1 || x.g == 255) &&
            (x.b == 0 || x.b == 1 || x.b == 255)
  {
    HsvToRgbQuantised(c);
    QuantisedColorValues(Floor(c.h / 60.0), c.v, c.s, HueFraction(c.h));
  }

  /** HsvToRyb (ColorUtils.cs:194-197) is defined on every valid HSV colour and fails with NotSupported. */
  lemma HsvToRybOfValid(c: HsvColor)
    requires 0.0 <= c.h < 360.0 && InUnit(c.s) && InUnit(c.v)
    ensures HsvToRgbDefined(c)
    ensures HsvToRyb(c) == Err(NotSupported)
  {
    HsvToRgbQuantised(c);
  }
}
