/**
 * What the RYB hue wheel promises: for a hue in [0, 360) and S, V in
 * [0, 1] the sector's primary becomes floor(255 S), the channel it darkens
 * floor(255 (1 - V) S), and the ramping channel lies between the two;
 * hues of 360 and above throw; hues in (-60, 0) are taken as sector 0.
 */
module RybHsvProperties {
  import opened MathOps
  import opened ColorTypes
  import opened Convert
  import opened HsvProperties
  import opened RybToRgbProperties

  /**
   * The roles of the three channels of x in sector k of the RYB wheel: the
   * primary is p, the darkened channel is d, and the ramping channel lies
   * from d to p.  Sectors 0 and 5 belong to red, 1 and 2 to yellow, 3 and
   * 4 to blue.
   */
  predicate InRoles(k: int, x: RybDoubles, p: real, d: real)
    requires 0 <= k <= 5
  {
    if k == 0 then x.r == p && d <= x.y <= p && x.b == d
    else if k == 1 then x.y == p && d <= x.r <= p && x.b == d
    else if k == 2 then x.y == p && d <= x.b <= p && x.r == d
    else if k == 3 then x.b == p && d <= x.y <= p && x.r == d
    else if k == 4 then x.b == p && d <= x.r <= p && x.y == d
    else x.r == p && d <= x.b <= p && x.y == d
  }

  /** The same roles for the bytes of an RYB colour. */
  predicate InByteRoles(k: int, c: RybColor, p: int, d: int)
    requires 0 <= k <= 5
  {
    if k == 0 then c.r == p && d <= c.y <= p && c.b == d
    else if k == 1 then c.y == p && d <= c.r <= p && c.b == d
    else if k == 2 then c.y == p && d <= c.b <= p && c.r == d
    else if k == 3 then c.b == p && d <= c.y <= p && c.r == d
    else if k == 4 then c.b == p && d <= c.r <= p && c.y == d
    else c.r == p && d <= c.b <= p && c.y == d
  }

  /** The ramp of a weight w in [0, 1] runs from 255 (1 - V) up to 255. */
  lemma RampBounds(v: real, w: real)
    requires InUnit(v) && InUnit(w)
    ensures 255.0 * (1.0 - v) <= Ramp(v, w) <= 255.0
  {
    MulNonNegative(v, w);
    MulNonNegative(v, 1.0 - w);
    assert v - v * w == v * (1.0 - w);
  }

  /** Sector 0 (red at 255, yellow ramping up): the maximum is 255, so the third channel is 255 (1 - V). */
  lemma SwitchRoles0(h: real, v: real)
    requires 0.0 <= h < 60.0 && InUnit(v)
    ensures RybHsvSwitch(0, h, v).Ok?
    ensures InRoles(0, RybHsvSwitch(0, h, v).value, 255.0, 255.0 * (1.0 - v))
  {
    RampBounds(v, h / 60.0);
  }

  /** Sector 1 (yellow at 255, red ramping down): the maximum is 255, so the third channel is 255 (1 - V). */
  lemma SwitchRoles1(h: real, v: real)
    requires 60.0 <= h < 120.0 && InUnit(v)
    ensures RybHsvSwitch(1, h, v).Ok?
    ensures InRoles(1, RybHsvSwitch(1, h, v).value, 255.0, 255.0 * (1.0 - v))
  {
    RampBounds(v, 1.0 - (h - 60.0) / 60.0);
  }

  /** Sector 2 (yellow at 255, blue ramping up): the maximum is 255, so the third channel is 255 (1 - V). */
  lemma SwitchRoles2(h: real, v: real)
    requires 120.0 <= h < 180.0 && InUnit(v)
    ensures RybHsvSwitch(2, h, v).Ok?
    ensures InRoles(2, RybHsvSwitch(2, h, v).value, 255.0, 255.0 * (1.0 - v))
  {
    RampBounds(v, (h - 120.0) / 60.0);
  }

  /** Sector 3 (blue at 255, yellow ramping down): the maximum is 255, so the third channel is 255 (1 - V). */
  lemma SwitchRoles3(h: real, v: real)
    requires 180.0 <= h < 240.0 && InUnit(v)
    ensures RybHsvSwitch(3, h, v).Ok?
    ensures InRoles(3, RybHsvSwitch(3, h, v).value, 255.0, 255.0 * (1.0 - v))
  {
    RampBounds(v, 1.0 - (h - 180.0) / 60.0);
  }

  /** Sector 4 (blue at 255, red ramping up): the maximum is 255, so the third channel is 255 (1 - V). */
  lemma SwitchRoles4(h: real, v: real)
    requires 240.0 <= h < 300.0 && InUnit(v)
    ensures RybHsvSwitch(4, h, v).Ok?
    ensures InRoles(4, RybHsvSwitch(4, h, v).value, 255.0, 255.0 * (1.0 - v))
  {
    RampBounds(v, (h - 240.0) / 60.0);
  }

  /** Sector 5 (red at 255, blue ramping down): the maximum is 255, so the third channel is 255 (1 - V). */
  lemma SwitchRoles5(h: real, v: real)
    requires 300.0 <= h < 360.0 && InUnit(v)
    ensures RybHsvSwitch(5, h, v).Ok?
    ensures InRoles(5, RybHsvSwitch(5, h, v).value, 255.0, 255.0 * (1.0 - v))
  {
    RampBounds(v, 1.0 - (h - 300.0) / 60.0);
  }

  /** The switch of ColorUtils.cs:215-249 for a hue in sector k: primary 255, darkened channel 255 (1 - V). */
  lemma SwitchRoles(k: byte, h: real, v: real)
    requires k <= 5 && 60.0 * k as real <= h < 60.0 * k as real + 60.0 && InUnit(v)
    ensures RybHsvSwitch(k, h, v).Ok?
    ensures InRoles(k, RybHsvSwitch(k, h, v).value, 255.0, 255.0 * (1.0 - v))
  {
    if k == 0 { SwitchRoles0(h, v); }
    else if k == 1 { SwitchRoles1(h, v); }
    else if k == 2 { SwitchRoles2(h, v); }
    else if k == 3 { SwitchRoles3(h, v); }
    else if k == 4 { SwitchRoles4(h, v); }
    else { SwitchRoles5(h, v); }
  }

  /** Scaling every channel by s in [0, 1] (ColorUtils.cs:250-252) scales the primary 255 and the darkened 255 (1 - V) by s. */
  lemma ScaledRoles(k: int, u: RybDoubles, v: real, s: real, x: RybDoubles)
    requires 0 <= k <= 5 && InRoles(k, u, 255.0, 255.0 * (1.0 - v)) && InUnit(s) && x == ScaleRyb(u, s)
    ensures InRoles(k, x, 255.0 * s, 255.0 * (1.0 - v) * s)
  {
    var ramp := if k == 0 || k == 3 then u.y else if k == 1 || k == 4 then u.r else u.b;
    MulNonNegative(ramp - 255.0 * (1.0 - v), s);
    MulNonNegative(255.0 - ramp, s);
  }

  /** The channels of ColorUtils.cs:215-252 are the switch of ColorUtils.cs:215 rescaled by s. */
  lemma ChannelsOfSwitch(h: real, s: real, v: real, u: RybDoubles)
    requires -60.0 < h < 15360.0 && RybHsvSwitch(RybHsvSector(h), h, v) == Ok(u)
    ensures RybHsvChannels(h, s, v) == Ok(ScaleRyb(u, s))
  {
  }

  /** For a hue in [0, 360) ColorUtils.cs:215 picks sector floor(h / 60), and ColorUtils.cs:250-252 rescale its switch by s. */
  lemma ChannelsOfHue(h: real, s: real, v: real)
    requires 0.0 <= h < 360.0 && InUnit(v)
    ensures 0 <= Floor(h / 60.0) <= 5
    ensures RybHsvChannels(h, s, v).Ok?
    ensures RybHsvChannels(h, s, v).value == ScaleRyb(RybHsvSwitch(Floor(h / 60.0), h, v).value, s)
  {
    var k := Floor(h / 60.0);
    SwitchRoles(k, h, v);
    ChannelsOfSwitch(h, s, v, RybHsvSwitch(k, h, v).value);
  }

  /** Lines 215-252 for a hue in [0, 360): sector floor(h / 60), primary 255 S, darkened channel 255 (1 - V) S. */
  lemma ChannelRoles(h: real, s: real, v: real)
    requires 0.0 <= h < 360.0 && InUnit(s) && InUnit(v)
    ensures 0 <= Floor(h / 60.0) <= 5
    ensures RybHsvChannels(h, s, v).Ok?
    ensures InRoles(Floor(h / 60.0), RybHsvChannels(h, s, v).value, 255.0 * s, 255.0 * (1.0 - v) * s)
  {
    var k := Floor(h / 60.0);
    ChannelsOfHue(h, s, v);
    SwitchRoles(k, h, v);
    ScaledRoles(k, RybHsvSwitch(k, h, v).value, v, s, RybHsvChannels(h, s, v).value);
  }

  /** Flooring keeps a value between the floors of its bounds. */
  lemma FloorBetween(lo: real, x: real, hi: real)
    requires lo <= x <= hi
    ensures Floor(lo) <= Floor(x) <= Floor(hi)
  {
  }

  /** Roles with bounds in [0, 255] survive the byte conversions of ColorUtils.cs:254, which are all defined. */
  lemma RoleBytes(k: int, x: RybDoubles, p: real, d: real)
    requires 0 <= k <= 5 && InRoles(k, x, p, d) && 0.0 <= d && p <= 255.0
    ensures RybCastable(x)
    ensures InByteRoles(k, FromRyb(ByteCast(x.r), ByteCast(x.y), ByteCast(x.b)), Floor(p), Floor(d))
  {
    var ramp := if k == 0 || k == 3 then x.y else if k == 1 || k == 4 then x.r else x.b;
    FloorBetween(d, ramp, p);
  }

  /** 255 S and 255 (1 - V) S lie in [0, 255] for S and V in [0, 1]. */
  lemma RoleBounds(s: real, v: real)
    requires InUnit(s) && InUnit(v)
    ensures 0.0 <= 255.0 * (1.0 - v) * s && 255.0 * s <= 255.0
  {
    MulNonNegative(255.0 * (1.0 - v), s);
  }

  /**
   * RybHsvToRyb for h in [0, 360) and S, V in [0, 1]: it does not throw,
   * every byte conversion is defined, and in sector floor(h / 60) the
   * primary is floor(255 S), the darkened channel floor(255 (1 - V) S), and
   * the ramping channel lies between them.
   */
  lemma RybHsvToRybOfValid(h: real, s: real, v: real)
    requires 0.0 <= h < 360.0 && InUnit(s) && InUnit(v)
    ensures RybHsvToRybDefined(h, s, v)
    ensures RybHsvToRyb(h, s, v).Ok?
    ensures 0 <= Floor(h / 60.0) <= 5
    ensures InByteRoles(Floor(h / 60.0), RybHsvToRyb(h, s, v).value,
                        Floor(255.0 * s), Floor(255.0 * (1.0 - v) * s))
  {
    ChannelRoles(h, s, v);
    RoleBounds(s, v);
    RoleBytes(Floor(h / 60.0), RybHsvChannels(h, s, v).value, 255.0 * s, 255.0 * (1.0 - v) * s);
  }

  /** Hue 0 at full saturation and value is pure red paint. */
  lemma RybHsvToRybRed()
    ensures RybHsvToRybDefined(0.0, 1.0, 1.0)
    ensures RybHsvToRyb(0.0, 1.0, 1.0) == Ok(RybColor(255, 0, 0))
  {
  }

  /** Hue 0 at full saturation and value is pure red in RGB too. */
  lemma RybHsvToRgbRed()
    ensures RybHsvToRybDefined(0.0, 1.0, 1.0)
    ensures RybHsvToRgb(0.0, 1.0, 1.0) == Ok(Color(255, 255, 0, 0))
  {
    RybHsvToRybRed();
    RybToRgbRed();
  }

  /** Every hue from 360 up to the top of the byte range of ColorUtils.cs:215 throws ArgumentException. */
  lemma RybHsvToRybOutOfRange(h: real, s: real, v: real)
    requires 360.0 <= h < 15360.0
    ensures RybHsvToRybDefined(h, s, v)
    ensures RybHsvToRyb(h, s, v) == Err(InvalidArgument)
    ensures RybHsvToRgb(h, s, v) == Err(InvalidArgument)
  {
  }

  /** A hue in (-60, 0) truncates to sector 0 on ColorUtils.cs:215, so the switch does not throw. */
  lemma RybHsvNegativeHue(h: real, s: real, v: real)
    requires -60.0 < h < 0.0
    ensures RybHsvSector(h) == 0
    ensures RybHsvChannels(h, s, v).Ok?
    ensures RybHsvChannels(h, s, v).value.r == 255.0 * s
  {
  }

  /**
   * On a negative hue the ramp of sector 0 can run below 0: hue -30 at full
   * saturation and value asks ColorUtils.cs:254 to convert -127.5 to a byte.
   */
  lemma RybHsvNegativeHueBelowRange()
    ensures RybHsvChannels(-30.0, 1.0, 1.0) == Ok(RybDoubles(255.0, -127.5, 0.0))
    ensures !RybHsvToRybDefined(-30.0, 1.0, 1.0)
  {
  }

  /** Pure red paint goes to the RYB wheel's hue 0 at full saturation and value, where the wheel starts. */
  lemma RybToHsvRed()
    ensures RybToHsv(FromRyb(255, 0, 0)) == Ok(HsvColor(0.0, 1.0, 1.0))
  {
    RybToRgbRed();
    RgbToHsvRed();
  }

  /** No paint, white, goes to hue 0, saturation 0 and value 1. */
  lemma RybToHsvWhite()
    ensures RybToHsv(FromRyb(0, 0, 0)) == Ok(HsvColor(0.0, 0.0, 1.0))
  {
    RybToRgbWhite();
    RgbToHsvGrey(Color(255, 255, 255, 255));
  }
}
