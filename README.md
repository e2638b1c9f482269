# Colour conversions of coloris.Harmony, modelled in Dafny

This project models the colour arithmetic of `ColorUtils.cs` in the
coloris.Harmony colour-harmony library and proves properties of it. It covers:

- the value types `HsvColor` and `RybColor` and their factories;
- the static `Convert` class:
  - the smoothstep blend `Cubic`;
  - the three RYB -> RGB channel functions, each with its table of eight
    corner constants;
  - RGB -> HSV, using the largest and smallest channels;
  - HSV -> RGB, a switch over six hue sectors;
  - RGB -> RYB, which always throws;
  - the compositions HSV -> RYB and RYB -> HSV;
  - the RYB hue wheel ("RYB-HSV") to RYB and to RGB.

Every C# `double` is an exact Dafny `real`. A byte channel is an `int` in
0..255. The model also defines these .NET operations (module `MathOps`):

- `Math.Floor` and `Math.Ceiling`;
- `Math.Round`, which rounds a tie to the even neighbour;
- the C# remainder `%` on doubles, whose result has the sign of the dividend;
- the truncating conversion `(byte)x`.

An exception becomes an `Err` result: either `InvalidArgument`
(`ArgumentException`) or `NotSupported` (`NotSupportedException`). The
source converts doubles to bytes at several points. A conversion whose
value does not fit a byte is unspecified in C#. Each function that performs
such conversions therefore requires exactly one thing: that every
conversion it performs is defined. For example, `Convert.HsvToRgbDefined`
states this requirement for `HsvToRgb`.

Modules:

- `MathOps`: the leaf operations above.
- `ColorTypes`: `Color` (alpha, red, green, blue), `HsvColor`, `RybColor`,
  `FromHsv` and `FromRyb`.
- `Convert`: every conversion, as the source writes it. It also holds a
  corrected HSV -> RGB conversion (see Findings).
- `RybToRgbProperties`: the RYB -> RGB blend at the cube corners, range
  facts and exact corner colours.
- `HsvProperties`: RGB -> HSV of greys and of red. It also states what the
  HSV -> RGB conversion as written makes of a valid HSV colour: a
  quantised colour whose channels are 0, 1 or 255, and that HSV -> RYB
  fails with NotSupported on every valid HSV colour.
- `HsvRoundTrip`: the corrected HSV -> RGB conversion undoes RGB -> HSV
  exactly, for every RGB colour.
- `HsvDefects`: one concrete input for each defect of HSV -> RGB, and the
  fact that the corrected conversion is defined on every valid HSV colour.
- `RybHsvProperties`: the RYB hue wheel. It covers the sector taken, the
  values of the primary and darkened channels, the bounds of the ramping
  channel, the error cases and exact colours.

Two behaviours of the RYB hue wheel (`RybHsvToRyb`) are easy to misread
from its code:

- **`RybHsvToRyb(0, 1, 1)` gives (255, 0, 0).** In sector 0, yellow is
  255·V·(h/60) + 255·(1−V). That ramps up from 0 at h = 0 and V = 1
  (`RybHsvProperties.RybHsvToRybRed`).
- **`RybHsvToRyb(-1, …)` does not throw.** The exception message at
  ColorUtils.cs:218 says "Hue must in 0 <= h < 360.". The switch at line 215,
  however, converts -1/60 to a byte by truncation, which gives sector 0
  (`RybHsvProperties.RybHsvNegativeHue`).

## Model

| member | source | states |
|---|---|---|
| MathOps.Floor | ColorUtils.cs:160-161 | Math.Floor: the greatest integer not above x |
| MathOps.Ceiling | ColorUtils.cs:51 | Math.Ceiling: the least integer not below x |
| MathOps.FMod | ColorUtils.cs:16 | the C# remainder x % m: in [0, m) for x >= 0 and in (-m, 0] for x <= 0; x itself when -m < x < m; x - m when m <= x < 2m; it differs from x by a whole multiple of m |
| MathOps.RoundHalfEven | ColorUtils.cs:162-164 | Math.Round: the result is within one half of x, and it is even when x lies exactly halfway between two integers |
| MathOps.RoundHalfEvenUnique | ColorUtils.cs:162-164 | those two properties pick out exactly one integer |
| MathOps.ByteCast | ColorUtils.cs:191 | (byte)x truncates: for x >= 0 it is the integer part of x, and for x in (-1, 0) it is 0 |
| ColorTypes.FromHsv | ColorUtils.cs:14-17 | S and V are stored unchanged; a hue h >= 0 is reduced into [0, 360); a hue already in (-360, 360) is kept; the stored hue differs from h by a whole number of turns |
| ColorTypes.FromHsvIdempotent | ColorUtils.cs:14-17 | building an HsvColor again from the parts of one gives the same colour |
| ColorTypes.FromRyb | ColorUtils.cs:28-31 | stores the three bytes as given |
| Convert.Cubic | ColorUtils.cs:36-40 | Cubic(0, a, b) = a and Cubic(1, a, b) = b; it is constant when a = b; for t in [0, 1] it lies between a and b |
| Convert.SmoothBlend | ColorUtils.cs:45-51 | the blend nested along blue, yellow and red stays in [0, 1] when the coordinates and all eight corner values are in [0, 1] |
| Convert.BlendChannel | ColorUtils.cs:42-76 | for inputs in 0..255 and corner values in [0, 1], ceil(255 · blend) is an integer in 0..255 |
| Convert.GetRedFromRyb | ColorUtils.cs:42-52 | an integer in 0..255 for inputs in 0..255 |
| Convert.GetGreenFromRyb | ColorUtils.cs:54-64 | an integer in 0..255 for inputs in 0..255 |
| Convert.GetBlueFromRyb | ColorUtils.cs:66-76 | an integer in 0..255 for inputs in 0..255 |
| Convert.RybToRgb | ColorUtils.cs:199-205 | alpha is 255, and each channel equals its channel function's value, so the byte conversion never wraps |
| MathOps.MaxByte | ColorUtils.cs:81 | Math.Max on bytes: not below either argument, and equal to one of them |
| MathOps.MinByte | ColorUtils.cs:82 | Math.Min on bytes: not above either argument, and equal to one of them |
| Convert.MaxChannel | ColorUtils.cs:81 | the largest of r, g and b: not below any channel, and equal to one of them |
| Convert.MinChannel | ColorUtils.cs:82 | the smallest of r, g and b: not above any channel, and equal to one of them |
| Convert.RedDominantHue | ColorUtils.cs:90 | (60a/d + 360) % 360 is 60a/d when a >= 0 and 60a/d + 360 when a < 0 |
| Convert.RgbHue | ColorUtils.cs:84-103 | never throws (the throw at line 102 is unreachable); the hue is in [0, 360); a grey has hue 0; a red-dominant hue is in [0, 60] or [300, 360); a green-dominant hue is in (60, 180]; a blue-dominant hue is in (180, 300) |
| Convert.RgbToHsv | ColorUtils.cs:79-115 | never throws; H is in [0, 360) and is the hue of the branch; S is in [0, 1] and equals (max − min)/max, or 0 when max = 0; V = max/255; a grey has H = 0; S = 0 exactly for a grey |
| Convert.HueSector | ColorUtils.cs:160 | Math.Floor(H/60) % 6 is a whole number below 6; it is not negative for H >= 0; it is floor(H/60) for H in [0, 360) |
| Convert.HueFraction | ColorUtils.cs:161 | f is in [0, 1) and H = 60 · (floor(H/60) + f) |
| Convert.RoundThenScale | ColorUtils.cs:162-164 | Math.Round(x) * 255: a whole multiple of 255, within 127.5 of 255·x |
| Convert.SectorSwitch | ColorUtils.cs:167-189 | the case split succeeds exactly for sectors 0..5; any other sector is the default: throw |
| Convert.HsvSwitch | ColorUtils.cs:162-189 | p, q and t followed by the case split: defined exactly for sectors 0..5 |
| Convert.HsvToRgbChannels | ColorUtils.cs:160-189 | the channels before the byte conversions; the default: branch is never taken, for any hue whose sector converts to a byte |
| Convert.HsvToRgb | ColorUtils.cs:158-192 | never throws, and alpha is 255 |
| Convert.ScaleThenRound | ColorUtils.cs:162-164 | the corrected Math.Round(255·x): a whole number within one half of 255·x |
| Convert.SectorSwitchIntended | ColorUtils.cs:167-189 | the corrected case split (sector 1 puts p in blue): defined exactly for sectors 0..5 |
| Convert.HsvSwitchIntended | ColorUtils.cs:162-189 | the corrected p, q, t and V (each scaled by 255, then rounded) followed by the case split: defined exactly for sectors 0..5 |
| Convert.HsvToRgbIntended | ColorUtils.cs:158-192 | the corrected conversion: never throws, and alpha is 255 |
| Convert.RgbToRyb | ColorUtils.cs:155 | fails with NotSupported for every colour |
| Convert.HsvToRyb | ColorUtils.cs:194-197 | fails with NotSupported for every HSV colour it accepts |
| Convert.RybToHsv | ColorUtils.cs:207-210 | never throws; H is in [0, 360) and S and V are in [0, 1] |
| Convert.RybHsvSector | ColorUtils.cs:215 | (byte)(h/60): 0 for h in (-60, 0); floor(h/60) for h >= 0; at most 5 exactly when h < 360 |
| MathOps.MaxReal | ColorUtils.cs:222 | Math.Max on doubles, as at lines 222, 227, 232, 237, 242 and 247: not below either argument, and equal to one of them |
| Convert.Ramp | ColorUtils.cs:221 | the ramping channel 255·V·w + 255·(1 − V), as at lines 221, 225, 231, 235, 241 and 245: it is 255·(1 − V) at w = 0 and 255 at w = 1 |
| Convert.RybHsvSwitch | ColorUtils.cs:215-249 | defined exactly for sectors 0..5; any other value is the default: throw |
| Convert.RybHsvChannels | ColorUtils.cs:215-252 | succeeds exactly when h < 360 |
| Convert.ScaleRyb | ColorUtils.cs:250-252 | every channel multiplied by S: S = 1 keeps the channels, and S = 0 gives no paint at all |
| Convert.RybHsvToRyb | ColorUtils.cs:212-255 | succeeds exactly when h < 360, and otherwise fails with InvalidArgument |
| Convert.RybHsvToRgb | ColorUtils.cs:257-260 | the same error cases as RybHsvToRyb; on success alpha is 255 |
| RybToRgbProperties.SmoothBlendAtCorners | ColorUtils.cs:42-76 | at each of the eight corners of the unit cube, the nested blend returns that corner's control value |
| RybToRgbProperties.BlendChannelAtCorners | ColorUtils.cs:42-76 | at each corner of the byte cube, a channel function gives ceil(255 · control value) |
| RybToRgbProperties.ControlValuesInUnit | ColorUtils.cs:45-72 | every control constant of the three tables lies in [0, 1] |
| RybToRgbProperties.RybToRgbChannelsInRange | ColorUtils.cs:199-205 | for every RYB colour, each channel value before the byte conversion is an integer in 0..255 and is the output channel |
| RybToRgbProperties.RybToRgbWhite | ColorUtils.cs:199-205 | RYB (0, 0, 0) gives RGB (255, 255, 255) |
| RybToRgbProperties.RybToRgbRed | ColorUtils.cs:199-205 | RYB (255, 0, 0) gives RGB (255, 0, 0) |
| RybToRgbProperties.RybToRgbYellow | ColorUtils.cs:199-205 | RYB (0, 255, 0) gives RGB (255, 255, 0) |
| HsvProperties.RgbToHsvGrey | ColorUtils.cs:79-115 | a grey (r = g = b) gives HSV (0, 0, r/255) |
| HsvProperties.RgbToHsvMidGrey | ColorUtils.cs:79-115 | (128, 128, 128) gives (0, 0, 128/255) |
| HsvProperties.RgbToHsvRed | ColorUtils.cs:79-115 | (255, 0, 0) gives (0, 1, 1) |
| HsvProperties.RoundThenScaleOfUnit | ColorUtils.cs:162-164 | rounding a value in [0, 1] and then scaling gives exactly 255 above one half and 0 up to one half |
| HsvProperties.SectorOfValidHue | ColorUtils.cs:160 | for H in [0, 360) the sector is floor(H/60), in 0..5, and it converts to that byte |
| HsvProperties.HsvToRgbChannelsOfHue | ColorUtils.cs:160-189 | for H in [0, 360) the switch runs on sector floor(H/60) |
| HsvProperties.SwitchOfUnit | ColorUtils.cs:162-189 | for V and S in [0, 1], p, q and t are each exactly 0 or 255 |
| HsvProperties.HsvToRgbChannelsOfValid | ColorUtils.cs:160-189 | for a valid HSV colour the channels are those of sector floor(H/60), with p, q and t at their thresholds |
| HsvProperties.QuantisedSwitchCast | ColorUtils.cs:167-191 | every byte conversion of the quantised channels is defined; the V channel becomes (byte)V, which is 0 or 1 |
| HsvProperties.HsvToRgbQuantised | ColorUtils.cs:158-192 | for H in [0, 360) and S, V in [0, 1]: every conversion is defined, and the colour in sectors 0..5 is (V,t,p), (q,V,t), (p,V,t), (p,q,V), (t,p,V), (V,p,q), with p, q, t each 0 or 255 and V a byte 0 or 1 |
| HsvProperties.QuantisedColorValues | ColorUtils.cs:162-187 | every channel of the quantised colour is 0, 1 or 255 |
| HsvProperties.HsvToRybOfValid | ColorUtils.cs:194-197 | HsvToRyb, built on HsvToRgb as written, is defined on every valid HSV colour and fails with NotSupported |
| HsvProperties.HsvToRgbChannelValues | ColorUtils.cs:158-192 | for a valid HSV colour, every channel HsvToRgb produces is 0, 1 or 255 |
| HsvRoundTrip.IntendedChannelsAt | ColorUtils.cs:160-189 | for H in sector k of [0, 360), the corrected conversion runs its switch on k |
| HsvRoundTrip.IntendedOfSwitch | ColorUtils.cs:167-191 | whole corrected channel values in 0..255 become the bytes of the corrected colour, placed by sector |
| HsvRoundTrip.SwitchIntendedOfScales | ColorUtils.cs:162-164 | when 255·V = M, S·M = M − m and (M − m)·f = u: the corrected V, p, q and t are exactly M, m, M − u and m + u |
| HsvRoundTrip.IntendedFromParts | ColorUtils.cs:158-192 | a valid HSV colour built from bytes M >= m and a whole offset u turns back into the colour whose channels are M, m and a ramp determined by sector and offset |
| HsvRoundTrip.HueOfColor | ColorUtils.cs:88-99 | the hue of a colour that is not grey is 60a/d + 60j, where the dominant channel picks a and j |
| HsvRoundTrip.HueOfHsv | ColorUtils.cs:160-161 | such a hue lies at offset u in sector k: (k, u) is (j, a), (j + 1, 0) or (j − 1, a + d) |
| HsvRoundTrip.ScalesOfHsv | ColorUtils.cs:111-113 | V = M/255 and S = (M − m)/M give 255·V = M and S·M = M − m exactly |
| HsvRoundTrip.RoundTripGrey | ColorUtils.cs:84-86 | a grey comes back exactly through the corrected conversion |
| HsvRoundTrip.RoundTripRed | ColorUtils.cs:88-91 | a red-dominant colour comes back exactly through the corrected conversion |
| HsvRoundTrip.RoundTripGreen | ColorUtils.cs:92-95 | a green-dominant colour comes back exactly through the corrected conversion |
| HsvRoundTrip.RoundTripBlue | ColorUtils.cs:96-99 | a blue-dominant colour comes back exactly through the corrected conversion |
| HsvRoundTrip.RgbHsvRoundTrip | ColorUtils.cs:79-115 | for every colour c, the corrected HSV -> RGB conversion is defined on RgbToHsv(c) and gives back c's red, green and blue with alpha 255 |
| HsvDefects.HsvToRgbLosesColour | ColorUtils.cs:162-172 | (128, 64, 32) goes to HSV (20, 0.75, 128/255); HsvToRgb as written turns that into black; the corrected conversion gives back (128, 64, 32) |
| HsvDefects.HsvToRgbWhite | ColorUtils.cs:172 | white goes to HSV (0, 0, 1); HsvToRgb as written gives (1, 255, 255); the corrected conversion gives white |
| HsvDefects.HsvToRgbSectorOneBlue | ColorUtils.cs:175 | HSV (100, 1, 1) gives (0, 1, 255) as written and (85, 255, 0) when corrected |
| HsvDefects.ScaleThenRoundOfUnit | ColorUtils.cs:162-164 | scaling a value in [0, 1] by 255 and then rounding gives a whole number in [0, 255] |
| HsvDefects.SwitchIntendedInRange | ColorUtils.cs:162-189 | for V, S in [0, 1] and f in [0, 1), every corrected channel is a whole number in [0, 255] |
| HsvDefects.HsvToRgbIntendedOfValid | ColorUtils.cs:158-192 | for every valid HSV colour the corrected conversion is defined, and each byte equals its channel value |
| RybHsvProperties.RampBounds | ColorUtils.cs:221 | the ramp 255·V·w + 255·(1 − V) for w in [0, 1] runs from 255·(1 − V) to 255 |
| RybHsvProperties.SwitchRoles0 | ColorUtils.cs:219-223 | sector 0: R = 255; B = 255·(1 − V), because the maximum is 255; Y lies between them |
| RybHsvProperties.SwitchRoles1 | ColorUtils.cs:224-228 | sector 1: Y = 255; B = 255·(1 − V); R lies between them |
| RybHsvProperties.SwitchRoles2 | ColorUtils.cs:229-233 | sector 2: Y = 255; R = 255·(1 − V); B lies between them |
| RybHsvProperties.SwitchRoles3 | ColorUtils.cs:234-238 | sector 3: B = 255; R = 255·(1 − V); Y lies between them |
| RybHsvProperties.SwitchRoles4 | ColorUtils.cs:239-243 | sector 4: B = 255; Y = 255·(1 − V); R lies between them |
| RybHsvProperties.SwitchRoles5 | ColorUtils.cs:244-248 | sector 5: R = 255; Y = 255·(1 − V); B lies between them |
| RybHsvProperties.SwitchRoles | ColorUtils.cs:215-249 | for a hue in sector k of [0, 360), the switch succeeds and keeps those roles |
| RybHsvProperties.ScaledRoles | ColorUtils.cs:250-252 | scaling by S in [0, 1] makes the roles 255·S and 255·(1 − V)·S, and the ramping channel stays between them |
| RybHsvProperties.ChannelsOfSwitch | ColorUtils.cs:215-252 | the channels are the switch's values, each multiplied by S |
| RybHsvProperties.ChannelsOfHue | ColorUtils.cs:215-252 | for h in [0, 360) the channels are the switch of sector floor(h/60), scaled by S |
| RybHsvProperties.ChannelRoles | ColorUtils.cs:215-252 | for a valid hue, S and V: primary 255·S, darkened channel 255·(1 − V)·S, and the ramping channel between them |
| RybHsvProperties.RoleBytes | ColorUtils.cs:254 | channels in [0, 255] keep their roles through the byte conversions, which are all defined |
| RybHsvProperties.RybHsvToRybOfValid | ColorUtils.cs:212-255 | for h in [0, 360) and S, V in [0, 1]: no throw, every conversion defined; in sector floor(h/60) the primary is floor(255·S), the darkened channel floor(255·(1 − V)·S), and the ramping channel lies between them |
| RybHsvProperties.RybHsvToRybRed | ColorUtils.cs:212-255 | (0, 1, 1) gives RYB (255, 0, 0) |
| RybHsvProperties.RybHsvToRgbRed | ColorUtils.cs:257-260 | (0, 1, 1) gives RGB (255, 0, 0) |
| RybHsvProperties.RybHsvToRybOutOfRange | ColorUtils.cs:215-218 | every h in [360, 15360) fails with InvalidArgument, in RybHsvToRyb and in RybHsvToRgb |
| RybHsvProperties.RybHsvNegativeHue | ColorUtils.cs:215-223 | every h in (-60, 0) is taken as sector 0, does not throw, and red becomes 255·S |
| RybHsvProperties.RybHsvNegativeHueBelowRange | ColorUtils.cs:219-254 | at h = -30 with S = V = 1, yellow is -127.5, so the byte conversion of line 254 is out of range |
| RybHsvProperties.RybToHsvRed | ColorUtils.cs:207-210 | RYB red paint goes to HSV (0, 1, 1), the hue where the RYB wheel starts |
| RybHsvProperties.RybToHsvWhite | ColorUtils.cs:207-210 | no paint goes to HSV (0, 0, 1) |

## Left out

- IEEE-754 rounding. Every double is an exact real, so the model makes no
  bit-exact claim near an integer boundary of `Math.Ceiling` or
  `Math.Round`. One such boundary is the blue channel of the blue corner
  RYB (0, 0, 255): ceil(255 · 0.6), exactly 153 over the reals.
- Out-of-range conversions of doubles to bytes (lines 167, 191, 204, 215,
  254). Their result is unspecified in C#. Each function instead requires
  that its conversions are defined, and wrap-around is not modelled.
- The `#if false` body of `RgbToRyb` (lines 119-154). It is not compiled,
  so only the live `throw` of line 155 is modelled.
- `Windows.UI.Color` and `Color.FromArgb`. They are replaced by the
  datatype `Color` of four bytes.
- Object identity and the private setters of `HsvColor` and `RybColor`.
  Both types are plain immutable datatypes.
- RybHsvProperties.RybHsvToRybOfValid: it bounds the ramping channel
  between the darkened channel and the primary. It does not give the
  ramping channel's exact value.
- RybHsvProperties.RybHsvNegativeHue: it does not say for which negative
  hues and values the byte conversions of line 254 are defined.
  RybHsvProperties.RybHsvNegativeHueBelowRange shows one input where they
  are not.

## Findings

Each row pairs two lemmas:

- the as-written member exhibits the defect on a concrete input;
- the corrected member proves the intended property of the corrected
  conversion `Convert.HsvToRgbIntended`. Only the proof modules
  `HsvRoundTrip` and `HsvDefects` use it. Every conversion in `Convert`,
  HSV -> RYB included, is built on `HsvToRgb` as written.

That property is that reading a colour into HSV and back gives the colour
itself.

| source | as written | input that shows it | evidently intended | confidence | as-written member | corrected member |
|---|---|---|---|---|---|---|
| ColorUtils.cs:162-164 | p, q and t are rounded while still in [0, 1] and only then scaled by 255, so each is 0 or 255 | RgbToHsv of (128, 64, 32) is (20, 0.75, 128/255), and HsvToRgb turns that into (0, 0, 0) | scale by 255 first, then round | high; not executed | HsvDefects.HsvToRgbLosesColour | HsvRoundTrip.RgbHsvRoundTrip |
| ColorUtils.cs:172-187 | the channel that receives V gets V itself, in [0, 1], which converts to the byte 0 or 1 | white, HSV (0, 0, 1), becomes (1, 255, 255) | the channel gets 255·V, rounded | high; not executed | HsvDefects.HsvToRgbWhite | HsvRoundTrip.RgbHsvRoundTrip |
| ColorUtils.cs:175 | sector 1 puts t in blue | HSV (100, 1, 1), a yellowish green, gets blue 255: (0, 1, 255) | blue gets p, as in the other sectors whose smallest channel is blue; HSV (100, 1, 1) then gives (85, 255, 0) | high; not executed | HsvDefects.HsvToRgbSectorOneBlue | HsvRoundTrip.RgbHsvRoundTrip |
