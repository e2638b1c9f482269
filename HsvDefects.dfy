/**
 * Three defects of HsvToRgb as written, each shown on one input, beside
 * what the corrected conversion gives for that input; and the facts that
 * make the corrected conversion total on valid HSV colours.
 */
module HsvDefects {
  import opened MathOps
  import opened ColorTypes
  import opened Convert
  import opened HsvProperties
  import opened HsvRoundTrip

  /**
   * Rounding before scaling (ColorUtils.cs:162-164) and the unscaled V (ColorUtils.cs:172):
   * the colour (128, 64, 32) goes to HSV (20, 0.75, 128/255) and back to
   * black, where the corrected conversion returns (128, 64, 32).
   */
  lemma HsvToRgbLosesColour()
    ensures RgbToHsv(Color(255, 128, 64, 32)) == Ok(HsvColor(20.0, 0.75, 128.0 / 255.0))
    ensures HsvToRgbDefined(HsvColor(20.0, 0.75, 128.0 / 255.0))
    ensures HsvToRgb(HsvColor(20.0, 0.75, 128.0 / 255.0)) == Ok(Color(255, 0, 0, 0))
    ensures HsvToRgbIntendedDefined(HsvColor(20.0, 0.75, 128.0 / 255.0))
    ensures HsvToRgbIntended(HsvColor(20.0, 0.75, 128.0 / 255.0)) == Ok(Color(255, 128, 64, 32))
  {
    var c := Color(255, 128, 64, 32);
    HueOfColor(c);
    assert (60 * 32) as real / 96.0 == 20.0;
    var hsv := HsvColor(20.0, 0.75, 128.0 / 255.0);
    HsvToRgbQuantised(hsv);
    assert HueFraction(20.0) == 1.0 / 3.0;
    RgbHsvRoundTrip(c);
  }

  /**
   * The unscaled V (ColorUtils.cs:172-187): white, HSV (0, 0, 1), comes back as
   * (1, 255, 255), where the corrected conversion returns white.
   */
  lemma HsvToRgbWhite()
    ensures RgbToHsv(Color(255, 255, 255, 255)) == Ok(HsvColor(0.0, 0.0, 1.0))
    ensures HsvToRgbDefined(HsvColor(0.0, 0.0, 1.0))
    ensures HsvToRgb(HsvColor(0.0, 0.0, 1.0)) == Ok(Color(255, 1, 255, 255))
    ensures HsvToRgbIntendedDefined(HsvColor(0.0, 0.0, 1.0))
    ensures HsvToRgbIntended(HsvColor(0.0, 0.0, 1.0)) == Ok(Color(255, 255, 255, 255))
  {
    var c := Color(255, 255, 255, 255);
    RgbToHsvGrey(c);
    HsvToRgbQuantised(HsvColor(0.0, 0.0, 1.0));
    RgbHsvRoundTrip(c);
  }

  /**
   * Sector 1 puts t in blue (ColorUtils.cs:175): the hue 100 at full saturation and
   * value, a yellowish green, gets the full blue channel 255, where the
   * corrected conversion gives (85, 255, 0) with no blue at all.  No value
   * rounded here lies on a tie of Math.Round.
   */
  lemma HsvToRgbSectorOneBlue()
    ensures HsvToRgbDefined(HsvColor(100.0, 1.0, 1.0))
    ensures HsvToRgb(HsvColor(100.0, 1.0, 1.0)) == Ok(Color(255, 0, 1, 255))
    ensures HsvToRgbIntendedDefined(HsvColor(100.0, 1.0, 1.0))
    ensures HsvToRgbIntended(HsvColor(100.0, 1.0, 1.0)) == Ok(Color(255, 85, 255, 0))
  {
    var hsv := HsvColor(100.0, 1.0, 1.0);
    assert Floor(100.0 / 60.0) == 1;
    assert HueFraction(100.0) == 2.0 / 3.0;
    HsvToRgbQuantised(hsv);
    IntendedChannelsAt(hsv, 1);
    assert RoundHalfEven(255.0 * (1.0 - 2.0 / 3.0)) == 85;
    assert RoundHalfEven(255.0 * (1.0 - 1.0 / 3.0)) == 170;
  }

  /** Scaling a value in [0, 1] by 255 and rounding gives a whole number in [0, 255]. */
  lemma ScaleThenRoundOfUnit(x: real)
    requires InUnit(x)
    ensures 0.0 <= ScaleThenRound(x) <= 255.0
    ensures IsIntegral(ScaleThenRound(x))
  {
  }

  /** The corrected channels of a sector for V, S in [0, 1] and f in [0, 1) are whole numbers in [0, 255]. */
  lemma SwitchIntendedInRange(k: byte, v: real, s: real, f: real)
    requires k <= 5 && InUnit(v) && InUnit(s) && 0.0 <= f < 1.0
    ensures HsvSwitchIntended(k, v, s, f).Ok?
    ensures var x := HsvSwitchIntended(k, v, s, f).value;
            InByteRange(x.r) && InByteRange(x.g) && InByteRange(x.b) &&
            IsIntegral(x.r) && IsIntegral(x.g) && IsIntegral(x.b)
  {
    UnitFactors(v, s, f);
    ScaleThenRoundOfUnit(v);
    ScaleThenRoundOfUnit(v * (1.0 - s));
    ScaleThenRoundOfUnit(v * (1.0 - s * f));
    ScaleThenRoundOfUnit(v * (1.0 - s * (1.0 - f)));
  }

  /**
   * For H in [0, 360) and S, V in [0, 1] the corrected conversion is
   * defined, and each channel is the corrected channel value itself.
   */
  lemma HsvToRgbIntendedOfValid(c: HsvColor)
    requires 0.0 <= c.h < 360.0 && InUnit(c.s) && InUnit(c.v)
    ensures HsvToRgbIntendedDefined(c)
    ensures var x := HsvToRgbIntendedChannels(c).value;
            var r := HsvToRgbIntended(c).value;
            r.r as real == x.r && r.g as real == x.g && r.b as real == x.b
  {
    IntendedChannelsAt(c, Floor(c.h / 60.0));
    SwitchIntendedInRange(Floor(c.h / 60.0), c.v, c.s, HueFraction(c.h));
  }
}
