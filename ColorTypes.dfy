/**
 * The value types of the colour library: the RGB colour it receives from and
 * hands to its host, and the HsvColor and RybColor wrappers with their
 * factories.
 */
module ColorTypes {
  import opened MathOps

  /** The host's colour: alpha, red, green and blue bytes (a stand-in for Windows.UI.Color). */
  datatype Color = Color(a: byte, r: byte, g: byte, b: byte)

  /** Hue in degrees, saturation and value; only FromHsv is meant to build one. */
  datatype HsvColor = HsvColor(h: real, s: real, v: real)

  /** Red, yellow and blue paint channels; only FromRyb is meant to build one. */
  datatype RybColor = RybColor(r: byte, y: byte, b: byte)

  /**
   * HsvColor.FromHsv: stores S and V unchanged and the hue reduced by the C#
   * remainder operator, so a hue that is not negative lands in [0, 360), a
   * hue already there is kept, and the stored hue differs from the given one
   * by a whole number of turns.
   */
  function FromHsv(h: real, s: real, v: real): (c: HsvColor)
    ensures c.s == s && c.v == v
    ensures 0.0 <= h ==> 0.0 <= c.h < 360.0
    ensures h <= 0.0 ==> -360.0 < c.h <= 0.0
    ensures -360.0 < h < 360.0 ==> c.h == h
    ensures IsIntegral((h - c.h) / 360.0)
  {
    HsvColor(FMod(h, 360.0), s, v)
  }

  /** Building an HsvColor from the parts of one FromHsv made gives the same colour back. */
  lemma FromHsvIdempotent(h: real, s: real, v: real)
    ensures var c := FromHsv(h, s, v); FromHsv(c.h, c.s, c.v) == c
  {
  }

  /** RybColor.FromRyb: stores the three channels as given, with no clamping or validation. */
  function FromRyb(r: byte, y: byte, b: byte): (c: RybColor)
    ensures c.r == r && c.y == y && c.b == b
  {
    RybColor(r, y, b)
  }
}
