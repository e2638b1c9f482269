/**
 * The HSV -> RGB conversion against its inverse RgbToHsv.  As written,
 * HsvToRgb loses the colour (it rounds before it scales, leaves V unscaled
 * and puts t instead of p into blue in sector 1); the corrected conversion
 * HsvToRgbIntended gives every RGB colour back exactly from its HSV form.
 */
module HsvRoundTrip {
  import opened MathOps
  import opened ColorTypes
  import opened Convert
  import opened HsvProperties

  // ---------------------------------------------------------------------------
  // The corrected conversion on whole-number channel values
  // ---------------------------------------------------------------------------

  /** For a hue in [0, 360) the channels of the corrected conversion are those of sector floor(H / 60). */
  lemma IntendedChannelsAt(c: HsvColor, k: int)
    requires 0.0 <= c.h < 360.0 && Floor(c.h / 60.0) == k
    ensures 0 <= k <= 5 && -1.0 < HueSector(c.h)
    ensures HsvToRgbIntendedChannels(c) == HsvSwitchIntended(k, c.v, c.s, HueFraction(c.h))
  {
    SectorOfValidHue(c.h);
  }

  /** Scaling by 255 and rounding leaves a value whose 255-fold is whole at that whole number. */
  lemma ScaleThenRoundWhole(x: real, n: int)
    requires 255.0 * x == n as real
    ensures ScaleThenRound(x) == n as real
  {
    RoundHalfEvenIntegral(n);
  }

  /** The colour the corrected conversion makes from a sector switch over whole channel values. */
  lemma IntendedOfSwitch(c: HsvColor, k: int, nv: byte, np: byte, nq: byte, nt: byte)
    requires 0 <= k <= 5 && -1.0 < HueSector(c.h)
    requires HsvToRgbIntendedChannels(c) ==
               SectorSwitchIntended(k, nv as real, np as real, nq as real, nt as real)
    ensures HsvToRgbIntendedDefined(c)
    ensures k == 0 ==> HsvToRgbIntended(c) == Ok(Color(255, nv, nt, np))
    ensures k == 1 ==> HsvToRgbIntended(c) == Ok(Color(255, nq, nv, np))
    ensures k == 2 ==> HsvToRgbIntended(c) == Ok(Color(255, np, nv, nt))
    ensures k == 3 ==> HsvToRgbIntended(c) == Ok(Color(255, np, nq, nv))
    ensures k == 4 ==> HsvToRgbIntended(c) == Ok(Color(255, nt, np, nv))
    ensures k == 5 ==> HsvToRgbIntended(c) == Ok(Color(255, nv, np, nq))
  {
    assert ByteCast(nv as real) == nv && ByteCast(np as real) == np;
    assert ByteCast(nq as real) == nq && ByteCast(nt as real) == nt;
  }

  /**
   * With 255 V = M, S M = M - m and (M - m) f = u, the four values the
   * conversion scales are, after scaling by 255, the whole numbers M, m,
   * M - u and m + u.
   */
  lemma ScaledFactors(v: real, s: real, f: real, mx: int, mn: int, u: int)
    requires 255.0 * v == mx as real
    requires s * mx as real == (mx - mn) as real
    requires (mx - mn) as real * f == u as real
    ensures 255.0 * (v * (1.0 - s)) == mn as real
    ensures 255.0 * (v * (1.0 - s * f)) == (mx - u) as real
    ensures 255.0 * (v * (1.0 - s * (1.0 - f))) == (mn + u) as real
  {
    var w := 255.0 * v;
    assert w * s == (mx - mn) as real;
    assert 255.0 * (v * (1.0 - s)) == w - w * s;
    assert w * (s * f) == (w * s) * f;
    assert 255.0 * (v * (1.0 - s * f)) == w - w * (s * f);
    assert w * (s * (1.0 - f)) == w * s - (w * s) * f;
    assert 255.0 * (v * (1.0 - s * (1.0 - f))) == w - w * (s * (1.0 - f));
  }

  /**
   * The corrected switch for V, S and f that come from whole RGB levels M
   * and m and offset u = (M - m) f: the sector switch over M, m, M - u and
   * m + u.
   */
  lemma SwitchIntendedOfScales(k: byte, v: real, s: real, f: real, mx: int, mn: int, u: int)
    requires 255.0 * v == mx as real
    requires s * mx as real == (mx - mn) as real
    requires (mx - mn) as real * f == u as real
    ensures HsvSwitchIntended(k, v, s, f) ==
              SectorSwitchIntended(k, mx as real, mn as real, (mx - u) as real, (mn + u) as real)
  {
    ScaledFactors(v, s, f, mx, mn, u);
    ScaleThenRoundWhole(v, mx);
    ScaleThenRoundWhole(v * (1.0 - s), mn);
    ScaleThenRoundWhole(v * (1.0 - s * f), mx - u);
    ScaleThenRoundWhole(v * (1.0 - s * (1.0 - f)), mn + u);
  }

  /**
   * The channels of the corrected conversion of an HSV colour whose value,
   * saturation and position in sector k come from whole RGB levels M and m
   * and offset u = (M - m) f: the sector switch over M, m, M - u and m + u.
   */
  lemma ChannelsOfParts(c: HsvColor, mx: byte, mn: byte, k: int, u: int)
    requires 0.0 <= c.h < 360.0 && Floor(c.h / 60.0) == k
    requires 255.0 * c.v == mx as real && c.s * mx as real == (mx - mn) as real
    requires (mx - mn) as real * HueFraction(c.h) == u as real
    ensures 0 <= k <= 5 && -1.0 < HueSector(c.h)
    ensures HsvToRgbIntendedChannels(c) ==
              SectorSwitchIntended(k, mx as real, mn as real, (mx - u) as real, (mn + u) as real)
  {
    IntendedChannelsAt(c, k);
    SwitchIntendedOfScales(k, c.v, c.s, HueFraction(c.h), mx, mn, u);
  }

  /**
   * The colour at offset u into sector k of the hue circle, for largest
   * level M and smallest m: the classic sector table, from M, m, M - u and
   * m + u.
   */
  function SectorColor(k: int, mx: byte, mn: byte, u: int): Color
    requires 0 <= k <= 5 && mn <= mx && 0 <= u <= mx - mn
  {
    if k == 0 then Color(255, mx, mn + u, mn)
    else if k == 1 then Color(255, mx - u, mx, mn)
    else if k == 2 then Color(255, mn, mx, mn + u)
    else if k == 3 then Color(255, mn, mx - u, mx)
    else if k == 4 then Color(255, mn + u, mn, mx)
    else Color(255, mx, mn, mx - u)
  }

  /**
   * The corrected conversion of an HSV colour whose value, saturation and
   * position in sector k are those of an RGB colour with largest channel M,
   * smallest m and offset u = (M - m) f: the sector's (R, G, B) from M, m,
   * M - u and m + u.
   */
  lemma IntendedFromParts(c: HsvColor, mx: byte, mn: byte, k: int, u: int)
    requires 0.0 <= c.h < 360.0 && Floor(c.h / 60.0) == k
    requires 255.0 * c.v == mx as real && c.s * mx as real == (mx - mn) as real
    requires (mx - mn) as real * HueFraction(c.h) == u as real
    requires mn <= mx && 0 <= u <= mx - mn
    ensures 0 <= k <= 5
    ensures HsvToRgbIntendedDefined(c)
    ensures HsvToRgbIntended(c) == Ok(SectorColor(k, mx, mn, u))
  {
    ChannelsOfParts(c, mx, mn, k, u);
    IntendedOfSwitch(c, k, mx, mn, mx - u, mn + u);
  }

  // ---------------------------------------------------------------------------
  // Sector and position of the hue RgbToHsv computes
  // ---------------------------------------------------------------------------

  /** 60 a / d is 60 times a / d. */
  lemma SixtyTimesQuotient(a: int, d: int)
    requires d > 0
    ensures (60 * a) as real / d as real == 60.0 * (a as real / d as real)
  {
    var x := a as real / d as real;
    assert x * d as real == a as real;
    assert (60.0 * x) * d as real == (60 * a) as real;
  }

  /** d times a / d is a. */
  lemma QuotientTimesDivisor(a: int, d: int)
    requires d > 0
    ensures d as real * (a as real / d as real) == a as real
    ensures (a as real / d as real) * d as real == a as real
  {
  }

  /** A hue 60 (j + x) with x in [0, 1) has sector j and position x. */
  lemma HueSplit(h: real, x: real, j: int)
    requires 0.0 <= x < 1.0 && h == 60.0 * (j as real + x)
    ensures Floor(h / 60.0) == j
    ensures HueFraction(h) == x
  {
    assert h / 60.0 == j as real + x;
  }

  /**
   * A hue 60 a / d + 60 j with -d <= a <= d: for 0 <= a < d it lies in
   * sector j at offset (d times its position) a; for a == d at the start of
   * sector j + 1; for a < 0 in sector j - 1 at offset a + d.
   */
  lemma HueOfOffset(h: real, a: int, d: int, j: int)
    requires d > 0 && -d <= a <= d
    requires h == (60 * a) as real / d as real + (60 * j) as real
    ensures 0 <= a < d ==> Floor(h / 60.0) == j && d as real * HueFraction(h) == a as real
    ensures a == d ==> Floor(h / 60.0) == j + 1 && d as real * HueFraction(h) == 0.0
    ensures a < 0 ==> Floor(h / 60.0) == j - 1 && d as real * HueFraction(h) == (a + d) as real
  {
    var x := a as real / d as real;
    SixtyTimesQuotient(a, d);
    QuotientTimesDivisor(a, d);
    BelowQuotient(a as real, d as real, 0.0);
    AboveQuotient(a as real, d as real, 1.0);
    BelowQuotient(a as real, d as real, -1.0);
    AboveQuotient(a as real, d as real, 0.0);
    if 0 <= a < d {
      HueSplit(h, x, j);
    } else if a == d {
      HueSplit(h, 0.0, j + 1);
    } else {
      HueSplit(h, x + 1.0, j - 1);
    }
  }

  // ---------------------------------------------------------------------------
  // The round trip
  // ---------------------------------------------------------------------------

  /** V = M / 255 and S = (M - m) / M for levels M > m give 255 V = M and S M = M - m. */
  lemma ScalesOfHsv(hsv: HsvColor, mx: byte, mn: byte)
    requires mn < mx && hsv.v == mx as real / 255.0 && hsv.s == (mx - mn) as real / mx as real
    ensures 255.0 * hsv.v == mx as real
    ensures hsv.s * mx as real == (mx - mn) as real
  {
    QuotientTimesDivisor(mx - mn, mx);
  }

  /**
   * The hue RgbToHsv computes for a colour that is not a grey, by its
   * dominant channel: 60 a / d + 60 j, where d is the spread and a and j
   * depend on that channel as ColorUtils.cs:88-99 say.
   */
  lemma HueOfColor(c: Color)
    requires MaxChannel(c) != MinChannel(c)
    ensures var d := MaxChannel(c) - MinChannel(c);
            var h := RgbHue(c).value;
            (MaxChannel(c) == c.r && c.g >= c.b ==>
               h == (60 * (c.g - c.b)) as real / d as real + (60 * 0) as real) &&
            (MaxChannel(c) == c.r && c.g < c.b ==>
               h == (60 * (c.g - c.b)) as real / d as real + (60 * 6) as real) &&
            (MaxChannel(c) != c.r && MaxChannel(c) == c.g ==>
               h == (60 * (c.b - c.r)) as real / d as real + (60 * 2) as real) &&
            (MaxChannel(c) != c.r && MaxChannel(c) != c.g ==>
               h == (60 * (c.r - c.g)) as real / d as real + (60 * 4) as real)
  {
    var d := MaxChannel(c) - MinChannel(c);
    if MaxChannel(c) == c.r {
      RedDominantHue(c.g - c.b, d);
    }
  }

  /**
   * A hue 60 a / d + 60 j with d = M - m and -d <= a <= d lies at offset u
   * into sector k, where k and u are j and a, j + 1 and 0, or j - 1 and
   * a + d, as a lies inside [0, d), at d, or below 0.
   */
  lemma HueOfHsv(hsv: HsvColor, mx: byte, mn: byte, a: int, j: int, k: int, u: int)
    requires mn < mx && -(mx - mn) <= a <= mx - mn
    requires hsv.h == (60 * a) as real / (mx - mn) as real + (60 * j) as real
    requires (0 <= a < mx - mn && k == j && u == a) || (a == mx - mn && k == j + 1 && u == 0) ||
             (a < 0 && k == j - 1 && u == a + (mx - mn))
    ensures Floor(hsv.h / 60.0) == k
    ensures (mx - mn) as real * HueFraction(hsv.h) == u as real
  {
    HueOfOffset(hsv.h, a, mx - mn, j);
  }

  /** The facts IntendedFromParts needs, for the HSV form of levels M > m and hue 60 a / d + 60 j. */
  lemma PartsOfHsv(hsv: HsvColor, mx: byte, mn: byte, a: int, j: int, k: int, u: int)
    requires mn < mx && hsv.v == mx as real / 255.0 && hsv.s == (mx - mn) as real / mx as real
    requires -(mx - mn) <= a <= mx - mn
    requires hsv.h == (60 * a) as real / (mx - mn) as real + (60 * j) as real
    requires (0 <= a < mx - mn && k == j && u == a) || (a == mx - mn && k == j + 1 && u == 0) ||
             (a < 0 && k == j - 1 && u == a + (mx - mn))
    ensures Floor(hsv.h / 60.0) == k
    ensures 255.0 * hsv.v == mx as real && hsv.s * mx as real == (mx - mn) as real
    ensures (mx - mn) as real * HueFraction(hsv.h) == u as real
  {
    ScalesOfHsv(hsv, mx, mn);
    HueOfHsv(hsv, mx, mn, a, j, k, u);
  }

  /** IntendedFromParts for a sector colour known to be a given colour. */
  lemma IntendedAtSector(hsv: HsvColor, mx: byte, mn: byte, k: int, u: int, target: Color)
    requires 0.0 <= hsv.h < 360.0 && Floor(hsv.h / 60.0) == k
    requires 255.0 * hsv.v == mx as real && hsv.s * mx as real == (mx - mn) as real
    requires (mx - mn) as real * HueFraction(hsv.h) == u as real
    requires mn <= mx && 0 <= u <= mx - mn && 0 <= k <= 5
    requires SectorColor(k, mx, mn, u) == target
    ensures HsvToRgbIntendedDefined(hsv)
    ensures HsvToRgbIntended(hsv) == Ok(target)
  {
    IntendedFromParts(hsv, mx, mn, k, u);
  }

  /**
   * The corrected conversion of an HSV colour with V = M / 255 and
   * S = (M - m) / M for levels M > m, and hue 60 a / d + 60 j, d = M - m:
   * the colour of the sector and offset that hue lies at.
   */
  lemma RoundTripAt(hsv: HsvColor, mx: byte, mn: byte, a: int, j: int, k: int, u: int, target: Color)
    requires mn < mx && hsv.v == mx as real / 255.0 && hsv.s == (mx - mn) as real / mx as real
    requires 0.0 <= hsv.h < 360.0
    requires -(mx - mn) <= a <= mx - mn
    requires hsv.h == (60 * a) as real / (mx - mn) as real + (60 * j) as real
    requires (0 <= a < mx - mn && k == j && u == a) || (a == mx - mn && k == j + 1 && u == 0) ||
             (a < 0 && k == j - 1 && u == a + (mx - mn))
    requires 0 <= k <= 5 && 0 <= u <= mx - mn
    requires SectorColor(k, mx, mn, u) == target
    ensures HsvToRgbIntendedDefined(hsv)
    ensures HsvToRgbIntended(hsv) == Ok(target)
  {
    PartsOfHsv(hsv, mx, mn, a, j, k, u);
    IntendedAtSector(hsv, mx, mn, k, u, target);
  }

  /** The corrected conversion undoes RgbToHsv for a grey. */
  lemma RoundTripGrey(c: Color)
    requires MaxChannel(c) == MinChannel(c)
    ensures HsvToRgbIntendedDefined(RgbToHsv(c).value)
    ensures HsvToRgbIntended(RgbToHsv(c).value) == Ok(Color(255, c.r, c.g, c.b))
  {
    RgbToHsvGrey(c);
    HueSplit(0.0, 0.0, 0);
    IntendedFromParts(HsvColor(0.0, 0.0, c.r as real / 255.0), c.r, c.r, 0, 0);
  }

  /**
   * The corrected conversion gives back a colour whose red is a largest
   * channel from the value, saturation and hue RgbToHsv computes for it.
   */
  lemma RoundTripRed(c: Color, hsv: HsvColor)
    requires MaxChannel(c) != MinChannel(c) && MaxChannel(c) == c.r
    requires hsv.v == MaxChannel(c) as real / 255.0
    requires hsv.s == (MaxChannel(c) - MinChannel(c)) as real / MaxChannel(c) as real
    requires 0.0 <= hsv.h < 360.0
    requires c.g >= c.b ==> hsv.h == (60 * (c.g - c.b)) as real / (MaxChannel(c) - MinChannel(c)) as real + (60 * 0) as real
    requires c.g < c.b ==> hsv.h == (60 * (c.g - c.b)) as real / (MaxChannel(c) - MinChannel(c)) as real + (60 * 6) as real
    ensures HsvToRgbIntendedDefined(hsv)
    ensures HsvToRgbIntended(hsv) == Ok(Color(255, c.r, c.g, c.b))
  {
    var d := MaxChannel(c) - MinChannel(c);
    if c.g < c.b {
      RoundTripAt(hsv, MaxChannel(c), MinChannel(c), c.g - c.b, 6, 5, c.g - c.b + d, Color(255, c.r, c.g, c.b));
    } else if c.g - c.b < d {
      RoundTripAt(hsv, MaxChannel(c), MinChannel(c), c.g - c.b, 0, 0, c.g - c.b, Color(255, c.r, c.g, c.b));
    } else {
      RoundTripAt(hsv, MaxChannel(c), MinChannel(c), c.g - c.b, 0, 1, 0, Color(255, c.r, c.g, c.b));
    }
  }

  /**
   * The corrected conversion gives back a colour whose green is largest
   * and red is not from the value, saturation and hue RgbToHsv computes.
   */
  lemma RoundTripGreen(c: Color, hsv: HsvColor)
    requires MaxChannel(c) != MinChannel(c) && MaxChannel(c) != c.r && MaxChannel(c) == c.g
    requires hsv.v == MaxChannel(c) as real / 255.0
    requires hsv.s == (MaxChannel(c) - MinChannel(c)) as real / MaxChannel(c) as real
    requires 0.0 <= hsv.h < 360.0
    requires hsv.h == (60 * (c.b - c.r)) as real / (MaxChannel(c) - MinChannel(c)) as real + (60 * 2) as real
    ensures HsvToRgbIntendedDefined(hsv)
    ensures HsvToRgbIntended(hsv) == Ok(Color(255, c.r, c.g, c.b))
  {
    var d := MaxChannel(c) - MinChannel(c);
    if c.b < c.r {
      RoundTripAt(hsv, MaxChannel(c), MinChannel(c), c.b - c.r, 2, 1, c.b - c.r + d, Color(255, c.r, c.g, c.b));
    } else if c.b - c.r < d {
      RoundTripAt(hsv, MaxChannel(c), MinChannel(c), c.b - c.r, 2, 2, c.b - c.r, Color(255, c.r, c.g, c.b));
    } else {
      RoundTripAt(hsv, MaxChannel(c), MinChannel(c), c.b - c.r, 2, 3, 0, Color(255, c.r, c.g, c.b));
    }
  }

  /**
   * The corrected conversion gives back a colour whose blue alone is
   * largest from the value, saturation and hue RgbToHsv computes.
   */
  lemma RoundTripBlue(c: Color, hsv: HsvColor)
    requires MaxChannel(c) != MinChannel(c) && MaxChannel(c) != c.r && MaxChannel(c) != c.g
    requires hsv.v == MaxChannel(c) as real / 255.0
    requires hsv.s == (MaxChannel(c) - MinChannel(c)) as real / MaxChannel(c) as real
    requires 0.0 <= hsv.h < 360.0
    requires hsv.h == (60 * (c.r - c.g)) as real / (MaxChannel(c) - MinChannel(c)) as real + (60 * 4) as real
    ensures HsvToRgbIntendedDefined(hsv)
    ensures HsvToRgbIntended(hsv) == Ok(Color(255, c.r, c.g, c.b))
  {
    var d := MaxChannel(c) - MinChannel(c);
    if c.r < c.g {
      RoundTripAt(hsv, MaxChannel(c), MinChannel(c), c.r - c.g, 4, 3, c.r - c.g + d, Color(255, c.r, c.g, c.b));
    } else {
      RoundTripAt(hsv, MaxChannel(c), MinChannel(c), c.r - c.g, 4, 4, c.r - c.g, Color(255, c.r, c.g, c.b));
    }
  }

  /**
   * The corrected HSV -> RGB conversion is a left inverse of RgbToHsv: every
   * RGB colour comes back exactly (with alpha 255) from its HSV form.
   */
  lemma RgbHsvRoundTrip(c: Color)
    ensures HsvToRgbIntendedDefined(RgbToHsv(c).value)
    ensures HsvToRgbIntended(RgbToHsv(c).value) == Ok(Color(255, c.r, c.g, c.b))
  {
    if MaxChannel(c) == MinChannel(c) {
      RoundTripGrey(c);
    } else {
      HueOfColor(c);
      if MaxChannel(c) == c.r {
        RoundTripRed(c, RgbToHsv(c).value);
      } else if MaxChannel(c) == c.g {
        RoundTripGreen(c, RgbToHsv(c).value);
      } else {
        RoundTripBlue(c, RgbToHsv(c).value);
      }
    }
  }
}
