/**
 * The colour round trip `hslToHex(rgbToHsl(r, g, b))`: every colour comes back exactly,
 * even though `rgbToHsl` rounds its three values to two decimals.
 *
 * The unrounded values invert `hslToRgb` exactly: the chroma is `max - min`, the match
 * value is `min` and the `switch` of `rgbToHsl` picks the 60-degree sector whose
 * arrangement of `c`, `x` and 0 gives back the channels. Byte channels keep the hue at
 * least 60/255 degrees away from the end of its sector, so the rounded hue stays in it,
 * and the roundings move every channel by less than 0.1 of a unit, which `Math.round`
 * removes.
 */
module HslRoundTrip {
  import opened Numeric
  import opened Hex
  import opened Hsl

  /** The components `c`, `x` and 0 in the order of sector `k` of the if-chain of `hslToRgb`. */
  function Arrange(k: int, c: real, x: real): (real, real, real) {
    if k == 0 then (c, x, 0.0)
    else if k == 1 then (x, c, 0.0)
    else if k == 2 then (0.0, c, x)
    else if k == 3 then (0.0, x, c)
    else if k == 4 then (x, 0.0, c)
    else (c, 0.0, x)
  }

  /** Sectors 0, 2 and 4, where the intermediate value rises with the hue. */
  predicate Even(k: int) {
    k == 0 || k == 2 || k == 4
  }

  /**
   * `1 - |(h / 60) % 2 - 1|` inside sector `k`: it rises from 0 to 1 across an even
   * sector and falls from 1 to 0 across an odd one.
   */
  function SectorFraction(k: int, h: real): real {
    if Even(k) then h / 60.0 - k as real else k as real + 1.0 - h / 60.0
  }

  /** Inside sector `k` the if-chain of `hslToRgb` takes branch `k`. */
  lemma SectorIs(h: real, c: real, x: real, k: int)
    requires 0 <= k < 6 && 60.0 * k as real <= h < 60.0 * k as real + 60.0
    ensures Sector(h, c, x) == Arrange(k, c, x)
  {
  }

  /** Inside sector `k` the intermediate value is the chroma scaled by the sector's fraction. */
  lemma IntermediateIn(h: real, c: real, k: int)
    requires 0 <= k < 6 && 60.0 * k as real <= h < 60.0 * k as real + 60.0
    ensures 0.0 <= SectorFraction(k, h) <= 1.0
    ensures Intermediate(h, c) == c * SectorFraction(k, h)
  {
    var a := h / 60.0;
    assert k as real <= a < k as real + 1.0;
    var t := Trunc(a / 2.0);
    assert t == k / 2 by {
      assert t as real <= a / 2.0 < t as real + 1.0;
      assert 2 * (k / 2) <= k <= 2 * (k / 2) + 1;
    }
    var r := RemTwo(a);
    assert r == a - 2.0 * (k / 2) as real;
    assert Intermediate(h, c) == c * (1.0 - Abs(r - 1.0));
    if Even(k) {
      assert 2 * (k / 2) == k;
      assert r == a - k as real;
      assert Abs(r - 1.0) == 1.0 - r;
      assert SectorFraction(k, h) == r;
    } else {
      assert 2 * (k / 2) == k - 1;
      assert r == a - (k - 1) as real;
      assert Abs(r - 1.0) == r - 1.0;
      assert SectorFraction(k, h) == 2.0 - r;
    }
  }

  /** `|a · b| <= e` for `|a| <= e` and `b` in [0, 1]. */
  lemma ProductBound(a: real, b: real, e: real)
    requires -e <= a <= e && 0.0 <= b <= 1.0
    ensures -e <= a * b <= e
  {
    if a >= 0.0 {
      assert a * b <= a * 1.0;
    } else {
      assert a * b >= a * 1.0;
    }
  }

  /** `ap · sp` differs from `a · s` by at most `3e` when `ap` is within `2e` of `a` and `sp` within `e` of `s`. */
  lemma DifferenceBound(a: real, ap: real, s: real, sp: real, e: real)
    requires 0.0 <= a <= 1.0 && 0.0 <= sp <= 1.0
    requires -2.0 * e <= ap - a <= 2.0 * e && -e <= sp - s <= e
    ensures -3.0 * e <= ap * sp - a * s <= 3.0 * e
  {
    ProductBound(ap - a, sp, 2.0 * e);
    ProductBound(sp - s, a, e);
    assert ap * sp - a * s == (ap - a) * sp + (sp - s) * a;
  }

  /** Moving saturation and lightness by at most `e` moves the chroma by at most `3e`. */
  lemma ChromaNear(s: real, l: real, sp: real, lp: real, e: real)
    requires 0.0 <= s <= 1.0 && 0.0 <= l <= 1.0 && 0.0 <= sp <= 1.0 && 0.0 <= lp <= 1.0
    requires -e <= sp - s <= e && -e <= lp - l <= e
    ensures -3.0 * e <= Chroma(sp, lp) - Chroma(s, l) <= 3.0 * e
  {
    var a, ap := 1.0 - Abs(2.0 * l - 1.0), 1.0 - Abs(2.0 * lp - 1.0);
    assert -2.0 * e <= ap - a <= 2.0 * e;
    assert 0.0 <= a <= 1.0;
    DifferenceBound(a, ap, s, sp, e);
  }

  /** The chroma and the match value of the unrounded lightness and saturation are `max - min` and `min`. */
  lemma ChromaOfExtremes(max: real, min: real)
    requires 0.0 <= min < max <= 1.0
    ensures var l := (max + min) / 2.0;
      var s := if l > 0.5 then (max - min) / (2.0 - max - min) else (max - min) / (max + min);
      Chroma(s, l) == max - min && Match(l, max - min) == min
  {
    var l := (max + min) / 2.0;
    var d := max - min;
    if l > 0.5 {
      var q := d / (2.0 - max - min);
      assert q * (2.0 - max - min) == d;
      assert Abs(2.0 * l - 1.0) == max + min - 1.0;
    } else {
      var q := d / (max + min);
      assert q * (max + min) == d;
      assert Abs(2.0 * l - 1.0) == 1.0 - max - min;
    }
  }

  /** Components of two arrangements of sector `k` differ as much as their `c` or their `x` do. */
  lemma ArrangeNear(k: int, c: real, x: real, cp: real, xp: real, e: real)
    requires -e <= cp - c <= e && -e <= xp - x <= e && 0.0 <= e
    ensures var a, ap := Arrange(k, c, x), Arrange(k, cp, xp);
      && -e <= ap.0 - a.0 <= e
      && -e <= ap.1 - a.1 <= e
      && -e <= ap.2 - a.2 <= e
  {
  }

  /** A unit channel within 0.0004 of `n / 255` is written back as `n`. */
  lemma RoundsBack(v: real, n: int)
    requires -0.0004 <= v - n as real / 255.0 <= 0.0004
    ensures Round(v * 255.0) == n
  {
    assert -0.102 <= v * 255.0 - n as real <= 0.102;
  }

  /**
   * The hue `60 · sh` of sector `k` whose fraction there is `q`, at least 1/255 of a
   * sector away from the sector's end, stays in that sector once rounded.
   */
  lemma FractionStaysInSector(k: int, q: real, sh: real)
    requires 0 <= k < 6
    requires Even(k) ==> 0.0 <= q <= 1.0 - 1.0 / 255.0 && sh == k as real + q
    requires !Even(k) ==> 1.0 / 255.0 <= q <= 1.0 && sh == k as real + 1.0 - q
    ensures 60.0 * k as real <= 60.0 * sh < 60.0 * k as real + 60.0
    ensures 60.0 * k as real <= ToFixed2(60.0 * sh) < 60.0 * k as real + 60.0
    ensures SectorFraction(k, 60.0 * sh) == q
  {
    assert 60.0 * k as real <= 60.0 * sh <= 60.0 * k as real + 60.0 - 60.0 / 255.0;
    assert (6000 * k) as real / 100.0 == 60.0 * k as real;
    assert (6000 * k + 5977) as real / 100.0 == 60.0 * k as real + 59.77;
    ToFixed2Within(60.0 * sh, 6000 * k, 6000 * k + 5977);
  }

  /**
   * The rounded hue stays in the sector of the exact hue `60 · sh`, whose fraction
   * there is `x / d`.
   */
  lemma HueStaysInSector(k: int, x: real, d: real, sh: real)
    requires 0 <= k < 6 && 1.0 / 255.0 <= d <= 1.0 && 0.0 <= x <= d
    requires Even(k) ==> x <= d - 1.0 / 255.0 && sh == k as real + x / d
    requires !Even(k) ==> x >= 1.0 / 255.0 && sh == k as real + 1.0 - x / d
    ensures 60.0 * k as real <= 60.0 * sh < 60.0 * k as real + 60.0
    ensures 60.0 * k as real <= ToFixed2(60.0 * sh) < 60.0 * k as real + 60.0
    ensures d * SectorFraction(k, 60.0 * sh) == x
  {
    assert (x / d) * d == x;
    if Even(k) {
      DivRange(x, d, 0.0, 1.0 - 1.0 / 255.0);
    } else {
      DivRange(x, d, 1.0 / 255.0, 1.0);
    }
    FractionStaysInSector(k, x / d, sh);
  }

  /** Close lightnesses and close chromas give close match values. */
  lemma MatchNear(l: real, lp: real, d: real, cp: real)
    requires -0.00005 <= lp - l <= 0.00005 && -0.00015 <= cp - d <= 0.00015
    ensures -0.000125 <= Match(lp, cp) - Match(l, d) <= 0.000125
  {
  }

  /** Close hues of one sector and close chromas give close intermediate values. */
  lemma IntermediateNear(k: int, h: real, hp: real, d: real, x: real, cp: real)
    requires 0 <= k < 6 && 60.0 * k as real <= h < 60.0 * k as real + 60.0
    requires 60.0 * k as real <= hp < 60.0 * k as real + 60.0 && -0.005 <= hp - h <= 0.005
    requires 0.0 <= d <= 1.0 && d * SectorFraction(k, h) == x && -0.00015 <= cp - d <= 0.00015
    ensures -0.00025 <= Intermediate(hp, cp) - x <= 0.00025
  {
    var f, fp := SectorFraction(k, h), SectorFraction(k, hp);
    assert -0.0001 <= fp - f <= 0.0001;
    IntermediateIn(hp, cp, k);
    assert Intermediate(hp, cp) - x == (cp - d) * fp + (fp - f) * d;
    ProductBound(cp - d, fp, 0.00015);
    ProductBound(fp - f, d, 0.0001);
  }

  /**
   * `hslToRgb` of a hue in sector `k` writes back `rr`, `gg` and `bb` once its chroma,
   * intermediate and match values are close enough to ones that arrange to them exactly.
   */
  lemma Assemble(k: int, hp: real, sp: real, lp: real, d: real, x: real, n: real, rr: int, gg: int, bb: int)
    requires 0 <= k < 6 && 60.0 * k as real <= hp < 60.0 * k as real + 60.0
    requires var cp := Chroma(sp, lp);
      && -0.00025 <= cp - d <= 0.00025
      && -0.00025 <= Intermediate(hp, cp) - x <= 0.00025
      && -0.000125 <= Match(lp, cp) - n <= 0.000125
    requires var a := Arrange(k, d, x);
      a.0 + n == rr as real / 255.0 && a.1 + n == gg as real / 255.0 && a.2 + n == bb as real / 255.0
    ensures HslToRgb(hp, sp, lp) == (rr, gg, bb)
  {
    var cp := Chroma(sp, lp);
    var xp, mp := Intermediate(hp, cp), Match(lp, cp);
    SectorIs(hp, cp, xp, k);
    var ap := Arrange(k, cp, xp);
    ArrangeNear(k, d, x, cp, xp, 0.00025);
    RoundsBack(ap.0 + mp, rr);
    RoundsBack(ap.1 + mp, gg);
    RoundsBack(ap.2 + mp, bb);
  }

  /**
   * The heart of the round trip, on plain numbers: a hue `h` of sector `k` whose
   * fraction there scales the chroma `d` to `x`, and a saturation and lightness whose
   * chroma is `d` and whose match value is `n`, arrange to the unit channels `rr / 255`,
   * `gg / 255`, `bb / 255`; then a hue `hp` of the same sector within 0.005 of `h` and any
   * saturation `sp` and lightness `lp` within 0.00005 of them give back `rr`, `gg` and `bb`.
   */
  lemma Rebuild(k: int, h: real, hp: real, d: real, x: real, n: real, s: real, l: real, sp: real, lp: real,
                rr: int, gg: int, bb: int)
    requires 0 <= k < 6 && 60.0 * k as real <= h < 60.0 * k as real + 60.0
    requires 60.0 * k as real <= hp < 60.0 * k as real + 60.0 && -0.005 <= hp - h <= 0.005
    requires 0.0 <= d <= 1.0 && d * SectorFraction(k, h) == x
    requires 0.0 <= s <= 1.0 && 0.0 <= l <= 1.0 && 0.0 <= sp <= 1.0 && 0.0 <= lp <= 1.0
    requires -0.00005 <= sp - s <= 0.00005 && -0.00005 <= lp - l <= 0.00005
    requires Chroma(s, l) == d && Match(l, d) == n
    requires var a := Arrange(k, d, x);
      a.0 + n == rr as real / 255.0 && a.1 + n == gg as real / 255.0 && a.2 + n == bb as real / 255.0
    ensures HslToRgb(hp, sp, lp) == (rr, gg, bb)
  {
    var cp := Chroma(sp, lp);
    ChromaNear(s, l, sp, lp, 0.00005);
    MatchNear(l, lp, d, cp);
    IntermediateNear(k, h, hp, d, x, cp);
    Assemble(k, hp, sp, lp, d, x, n, rr, gg, bb);
  }

  /** Two channels of a byte colour are equal or at least 1/255 apart. */
  predicate Apart(a: real, b: real) {
    a == b || a - b >= 1.0 / 255.0 || b - a >= 1.0 / 255.0
  }

  /** Channels that are bytes are equal or at least 1/255 apart. */
  lemma UnitsApart(v: Byte, w: Byte)
    ensures Apart(Unit(v), Unit(w))
  {
    assert Unit(v) - Unit(w) == (v - w) as real / 255.0;
    if v > w {
      assert (v - w) as real >= 1.0;
    } else if v < w {
      assert (w - v) as real >= 1.0;
    }
  }

  /** Swapping the operands of a difference negates its quotient. */
  lemma Flip(a: real, b: real, d: real)
    requires d > 0.0
    ensures (a - b) / d == -((b - a) / d)
  {
    var q := (b - a) / d;
    assert q * d == b - a;
    assert (-q) * d == a - b;
  }

  /**
   * What a branch of the `switch (max)` of `rgbToHsl` yields: the hue in sixths `sh`
   * lies in sector `k`, at least 1/255 of a sector from its end, with intermediate
   * component `x`, and arranging the chroma `d` and `x` in that sector and adding the
   * minimum `min` gives back the channels.
   */
  predicate SectorData(k: int, x: real, d: real, sh: real, min: real, r: real, g: real, b: real) {
    && 0 <= k < 6 && 0.0 <= x <= d
    && (Even(k) ==> x <= d - 1.0 / 255.0 && sh == k as real + x / d)
    && (!Even(k) ==> x >= 1.0 / 255.0 && sh == k as real + 1.0 - x / d)
    && var a := Arrange(k, d, x);
    a.0 + min == r && a.1 + min == g && a.2 + min == b
  }

  /** The `case r` branch: red is the maximum. */
  lemma RedCase(r: real, g: real, b: real, min: real) returns (k: int, x: real)
    requires Apart(r, g) && Apart(g, b) && Apart(r, b)
    requires r >= g && r >= b && min <= g && min <= b && (min == g || min == b) && r - min >= 1.0 / 255.0
    ensures SectorData(k, x, r - min, (g - b) / (r - min) + (if g < b then 6.0 else 0.0), min, r, g, b)
  {
    var d := r - min;
    if g < b {
      k, x := 5, b - g;
      Flip(g, b, d);
    } else if g < r {
      k, x := 0, g - b;
    } else {
      k, x := 1, d;
      assert x / d == 1.0;
    }
  }

  /** The `case g` branch: green is the maximum and red is below it. */
  lemma GreenCase(r: real, g: real, b: real, min: real) returns (k: int, x: real)
    requires Apart(r, g) && Apart(g, b) && Apart(r, b)
    requires g > r && g >= b && min <= r && min <= b && (min == r || min == b) && g - min >= 1.0 / 255.0
    ensures SectorData(k, x, g - min, (b - r) / (g - min) + 2.0, min, r, g, b)
  {
    var d := g - min;
    if b < r {
      k, x := 1, r - b;
      Flip(b, r, d);
    } else if b < g {
      k, x := 2, b - r;
    } else {
      k, x := 3, d;
      assert x / d == 1.0;
    }
  }

  /** The `case b` branch: blue is the maximum and red and green are below it. */
  lemma BlueCase(r: real, g: real, b: real, min: real) returns (k: int, x: real)
    requires Apart(r, g) && Apart(g, b) && Apart(r, b)
    requires b > r && b > g && min <= r && min <= g && (min == r || min == g) && b - min >= 1.0 / 255.0
    ensures SectorData(k, x, b - min, (r - g) / (b - min) + 4.0, min, r, g, b)
  {
    var d := b - min;
    if r < g {
      k, x := 3, g - r;
      Flip(r, g, d);
    } else {
      k, x := 4, r - g;
    }
  }

  /** The `switch (max)` of `rgbToHsl` for channels that are not all equal. */
  lemma SwitchCase(r: real, g: real, b: real) returns (k: int, x: real)
    requires Apart(r, g) && Apart(g, b) && Apart(r, b) && !(r == g == b)
    ensures var max, min := Max3(r, g, b), Min3(r, g, b);
      SectorData(k, x, max - min, SectorHue(r, g, b, max, max - min), min, r, g, b)
  {
    var max, min := Max3(r, g, b), Min3(r, g, b);
    if max == r {
      k, x := RedCase(r, g, b, min);
    } else if max == g {
      k, x := GreenCase(r, g, b, min);
    } else {
      k, x := BlueCase(r, g, b, min);
    }
  }

  /**
   * The rounded values of `rgbToHsl` that `Rebuild` starts from: the hue `h = 60 · sh`,
   * the saturation `sat = 100 · s` and the lightness `light = 100 · l`, each through
   * `toFixed(2)`.
   */
  lemma RoundedNear(k: int, x: real, d: real, sh: real, h: real, s: real, l: real, sat: real, light: real)
    requires 0 <= k < 6 && 1.0 / 255.0 <= d <= 1.0 && 0.0 <= x <= d
    requires Even(k) ==> x <= d - 1.0 / 255.0 && sh == k as real + x / d
    requires !Even(k) ==> x >= 1.0 / 255.0 && sh == k as real + 1.0 - x / d
    requires h == 60.0 * sh && 0.0 <= s <= 1.0 && 0.0 <= l <= 1.0 && sat == 100.0 * s && light == 100.0 * l
    ensures 60.0 * k as real <= h < 60.0 * k as real + 60.0
    ensures 60.0 * k as real <= ToFixed2(h) < 60.0 * k as real + 60.0
    ensures -0.005 <= ToFixed2(h) - h <= 0.005
    ensures d * SectorFraction(k, h) == x
    ensures 0.0 <= ToFixed2(sat) / 100.0 <= 1.0 && 0.0 <= ToFixed2(light) / 100.0 <= 1.0
    ensures -0.00005 <= ToFixed2(sat) / 100.0 - s <= 0.00005
    ensures -0.00005 <= ToFixed2(light) / 100.0 - l <= 0.00005
  {
    ToFixed2Within(sat, 0, 10000);
    ToFixed2Within(light, 0, 10000);
    HueStaysInSector(k, x, d, sh);
  }

  /**
   * From the exact values to the channels, on plain numbers: unit channels `rr / 255`,
   * `gg / 255`, `bb / 255` of sector data `k`, `x`, `d`, `sh` and `min`, with a saturation
   * `s` and lightness `l` whose chroma is `d` and whose match value is `min`, come back
   * from the hue `60 · sh`, the saturation `100 · s` and the lightness `100 · l` rounded
   * as by `rgbToHsl`.
   */
  lemma FromSectorData(k: int, x: real, d: real, sh: real, min: real, s: real, l: real,
                       hue: real, sat: real, light: real, rr: int, gg: int, bb: int)
    requires SectorData(k, x, d, sh, min, rr as real / 255.0, gg as real / 255.0, bb as real / 255.0)
    requires 1.0 / 255.0 <= d <= 1.0 && 0.0 <= s <= 1.0 && 0.0 <= l <= 1.0
    requires Chroma(s, l) == d && Match(l, d) == min
    requires hue == 60.0 * sh && sat == 100.0 * s && light == 100.0 * l
    ensures HslToRgb(ToFixed2(hue), ToFixed2(sat) / 100.0, ToFixed2(light) / 100.0) == (rr, gg, bb)
  {
    RoundedNear(k, x, d, sh, hue, s, l, sat, light);
    var hp, sp, lp := ToFixed2(hue), ToFixed2(sat) / 100.0, ToFixed2(light) / 100.0;
    Rebuild(k, hue, hp, d, x, min, s, l, sp, lp, rr, gg, bb);
  }

  /** The unrounded saturation of `rgbToHsl`, as a fraction, lies in [0, 1]. */
  lemma SaturationOfExtremes(max: real, min: real)
    requires 0.0 <= min < max <= 1.0
    ensures var l := (max + min) / 2.0;
      var s := if l > 0.5 then (max - min) / (2.0 - max - min) else (max - min) / (max + min);
      0.0 <= s <= 1.0
  {
    if (max + min) / 2.0 > 0.5 {
      DivRange(max - min, 2.0 - max - min, 0.0, 1.0);
    } else {
      DivRange(max - min, max + min, 0.0, 1.0);
    }
  }

  /**
   * `hslToRgb` of the rounded `rgbToHsl` values of a colour that is not grey gives back
   * the colour's channels.
   */
  lemma ChannelsBack(c: Rgb)
    requires !IsAchromatic(c)
    ensures var hsl := RgbToHsl(c);
      HslToRgb(hsl.hue, hsl.saturation / 100.0, hsl.lightness / 100.0) == (c.r as int, c.g as int, c.b as int)
  {
    var r, g, b := Unit(c.r), Unit(c.g), Unit(c.b);
    var max, min := Max3(r, g, b), Min3(r, g, b);
    var d, l := max - min, (max + min) / 2.0;
    var s := if l > 0.5 then d / (2.0 - max - min) else d / (max + min);
    var sh := SectorHue(r, g, b, max, d);
    var u := UnroundedHsl(c);
    assert u.hue == 60.0 * sh && u.saturation == 100.0 * s && u.lightness == 100.0 * l;
    UnitsApart(c.r, c.g);
    UnitsApart(c.g, c.b);
    UnitsApart(c.r, c.b);
    var k, x := SwitchCase(r, g, b);
    ByteGap(c);
    SaturationOfExtremes(max, min);
    ChromaOfExtremes(max, min);
    FromSectorData(k, x, d, sh, min, s, l, u.hue, u.saturation, u.lightness, c.r, c.g, c.b);
    assert RgbToHsl(c) == Hsl(ToFixed2(u.hue), ToFixed2(u.saturation), ToFixed2(u.lightness));
  }

  /** `hslToHex(rgbToHsl(r, g, b))` for a colour that is not grey. */
  lemma ChromaticRoundTrip(c: Rgb)
    requires !IsAchromatic(c)
    ensures var hsl := RgbToHsl(c);
      HslToHex(hsl.hue, hsl.saturation, hsl.lightness) == FormatHex(c.r, c.g, c.b)
  {
    var hsl := RgbToHsl(c);
    ChannelsBack(c);
    HslToHexWrites(hsl.hue, hsl.saturation, hsl.lightness, c.r, c.g, c.b);
  }

  /**
   * `hslToHex(rgbToHsl(r, g, b))` writes every colour back as itself, although
   * `rgbToHsl` rounds its hue, saturation and lightness to two decimals.
   */
  lemma RoundTrip(c: Rgb)
    ensures var hsl := RgbToHsl(c);
      HslToHex(hsl.hue, hsl.saturation, hsl.lightness) == FormatHex(c.r, c.g, c.b)
  {
    if IsAchromatic(c) {
      assert c == Rgb(c.r, c.r, c.r);
      GreyRoundTrip(c.r);
    } else {
      ChromaticRoundTrip(c);
    }
  }

  /**
   * A well-formed colour string goes through `hexToRgb`, `rgbToHsl` and
   * `hslToHex` to its canonical lower-case form, which decodes to the same bytes.
   */
  lemma HexRoundTrip(hex: string)
    requires WellFormed(hex)
    ensures var hsl := RgbToHsl(HexToRgb(hex));
      var back := HslToHex(hsl.hue, hsl.saturation, hsl.lightness);
      IsCanonical(back) && HexToRgb(back) == HexToRgb(hex)
  {
    RoundTrip(HexToRgb(hex));
    ParseThenFormat(hex);
  }
}
