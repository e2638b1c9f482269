/**
 * What the RYB -> RGB blend promises: the nested smoothstep reproduces its
 * control values at the corners of the RYB cube, every channel function
 * stays in byte range, and RybToRgb maps the RYB corners named below to
 * their exact RGB colours.
 */
module RybToRgbProperties {
  import opened MathOps
  import opened ColorTypes
  import opened Convert

  /** At each corner of the unit cube the nested blend returns that corner's control value. */
  lemma SmoothBlendAtCorners(c: Corners)
    ensures SmoothBlend(0.0, 0.0, 0.0, c) == c.c000
    ensures SmoothBlend(0.0, 0.0, 1.0, c) == c.c001
    ensures SmoothBlend(0.0, 1.0, 0.0, c) == c.c010
    ensures SmoothBlend(0.0, 1.0, 1.0, c) == c.c011
    ensures SmoothBlend(1.0, 0.0, 0.0, c) == c.c100
    ensures SmoothBlend(1.0, 0.0, 1.0, c) == c.c101
    ensures SmoothBlend(1.0, 1.0, 0.0, c) == c.c110
    ensures SmoothBlend(1.0, 1.0, 1.0, c) == c.c111
  {
  }

  /**
   * A channel function evaluated at a corner of the RYB byte cube is 255
   * times that corner's control value, rounded up.
   */
  lemma BlendChannelAtCorners(c: Corners)
    ensures BlendChannel(0.0, 0.0, 0.0, c) == Ceiling(255.0 * c.c000)
    ensures BlendChannel(0.0, 0.0, 255.0, c) == Ceiling(255.0 * c.c001)
    ensures BlendChannel(0.0, 255.0, 0.0, c) == Ceiling(255.0 * c.c010)
    ensures BlendChannel(0.0, 255.0, 255.0, c) == Ceiling(255.0 * c.c011)
    ensures BlendChannel(255.0, 0.0, 0.0, c) == Ceiling(255.0 * c.c100)
    ensures BlendChannel(255.0, 0.0, 255.0, c) == Ceiling(255.0 * c.c101)
    ensures BlendChannel(255.0, 255.0, 0.0, c) == Ceiling(255.0 * c.c110)
    ensures BlendChannel(255.0, 255.0, 255.0, c) == Ceiling(255.0 * c.c111)
  {
    assert 255.0 / 255.0 == 1.0 && 0.0 / 255.0 == 0.0;
    SmoothBlendAtCorners(c);
  }

  /** Every control value of the three channel tables lies in [0, 1]. */
  lemma ControlValuesInUnit()
    ensures UnitCorners(RedCorners) && UnitCorners(GreenCorners) && UnitCorners(BlueCorners)
  {
  }

  /**
   * For every RYB colour each channel value RybToRgb computes is already an
   * integer in 0..255 before the byte conversion, so that conversion never
   * wraps.
   */
  lemma RybToRgbChannelsInRange(c: RybColor)
    ensures 0 <= GetRedFromRyb(c.r as real, c.y as real, c.b as real) <= 255
    ensures 0 <= GetGreenFromRyb(c.r as real, c.y as real, c.b as real) <= 255
    ensures 0 <= GetBlueFromRyb(c.r as real, c.y as real, c.b as real) <= 255
    ensures RybToRgb(c).r == GetRedFromRyb(c.r as real, c.y as real, c.b as real)
    ensures RybToRgb(c).g == GetGreenFromRyb(c.r as real, c.y as real, c.b as real)
    ensures RybToRgb(c).b == GetBlueFromRyb(c.r as real, c.y as real, c.b as real)
  {
  }

  /** A control value of 0 or 1 becomes the channel value 0 or 255 exactly. */
  lemma ScaledControlValue(x: real, n: int)
    requires (x == 0.0 && n == 0) || (x == 1.0 && n == 255)
    ensures Ceiling(255.0 * x) == n
  {
    assert 255.0 * x == n as real;
  }

  /** No paint gives white. */
  lemma RybToRgbWhite()
    ensures RybToRgb(FromRyb(0, 0, 0)) == Color(255, 255, 255, 255)
  {
    BlendChannelAtCorners(RedCorners);
    BlendChannelAtCorners(GreenCorners);
    BlendChannelAtCorners(BlueCorners);
    ScaledControlValue(1.0, 255);
  }

  /** Pure red paint gives pure red. */
  lemma RybToRgbRed()
    ensures RybToRgb(FromRyb(255, 0, 0)) == Color(255, 255, 0, 0)
  {
    BlendChannelAtCorners(RedCorners);
    BlendChannelAtCorners(GreenCorners);
    BlendChannelAtCorners(BlueCorners);
    ScaledControlValue(1.0, 255);
    ScaledControlValue(0.0, 0);
  }

  /** Pure yellow paint gives the RGB yellow (255, 255, 0). */
  lemma RybToRgbYellow()
    ensures RybToRgb(FromRyb(0, 255, 0)) == Color(255, 255, 255, 0)
  {
    BlendChannelAtCorners(RedCorners);
    BlendChannelAtCorners(GreenCorners);
    BlendChannelAtCorners(BlueCorners);
    ScaledControlValue(1.0, 255);
    ScaledControlValue(0.0, 0);
  }
}
