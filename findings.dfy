/**
 * Two inputs on which `generateScale` leaves the colour space, each next to a
 * corrected step that stays inside it: a shifted lightness above 100 (the shift is never
 * clamped) and a working hue below 0 (the hue is never wrapped into [0, 360)).
 */
module ScaleFindings {
  import opened Numeric
  import opened Hex
  import opened Hsl
  import opened Closest
  import opened CalibratedScale

  lemma GreyBase()
    ensures BaseHsl("#c2c2c2") == Hsl(0.0, 0.0, 76.08)
  {
    assert "#c2c2c2"[1..] == "c2c2c2";
    assert ParseDigits("c2c2c2") == 12763842 by {
      assert "c2c2c2"[..5] == "c2c2c";
      assert "c2c2c"[..4] == "c2c2";
      assert "c2c2"[..3] == "c2c";
      assert "c2c"[..2] == "c2";
      assert "c2"[..1] == "c";
    }
    var c := HexToRgb("#c2c2c2");
    SplitBytes(194, 194, 194);
    assert c == Rgb(194, 194, 194);
    assert Cents(100.0 * Unit(194)) == 7608;
  }

  lemma GreyAnchor()
    ensures Anchor(Hsl(0.0, 0.0, 76.08)) == 4
  {
    var t := LightnessTable;
    assert IsFirstClosest(t, 76.08, 4) by {
      assert forall j | 0 <= j < 11 :: Distance(t[j], 76.08) >= 5.08;
    }
    FirstClosestUnique(t, 76.08, 4, Anchor(Hsl(0.0, 0.0, 76.08)));
  }

  /**
   * As written: for the grey "#c2c2c2" (lightness 76.08, anchored at 71) the table
   * slides up by 5.08, step "50" gets lightness 102.08, and `hslToRgb` returns green and
   * blue channels of 265 and 266, so the stored string has nine characters.
   */
  lemma LightnessOverflowExample()
    ensures ShiftedLightness(BaseHsl("#c2c2c2"))[0] == 102.08
    ensures StepHex("#c2c2c2", 0) == "#ff10910a"
    ensures !WellFormed(StepHex("#c2c2c2", 0))
  {
    OverflowShift();
    OverflowHex();
  }

  lemma OverflowShift()
    ensures ShiftedLightness(BaseHsl("#c2c2c2"))[0] == 102.08
    ensures StepHue(BaseHsl("#c2c2c2"), 0) == 4.0
  {
    GreyBase();
    var base := Hsl(0.0, 0.0, 76.08);
    GreyAnchor();
    assert Offset(base) == 5.08;
    assert Cents(97.0 + 5.08) == 10208;
  }

  lemma OverflowHex()
    ensures HslToHex(4.0, 100.0, 102.08) == "#ff10910a"
  {
    OverflowChannels();
    OverflowText();
  }

  lemma OverflowText()
    ensures FormatHex(255, 265, 266) == "#ff10910a"
  {
    assert HexNat(255) == "ff";
    assert HexNat(265) == "109";
    assert HexNat(266) == "10a";
  }

  lemma OverflowChannels()
    ensures HslToRgb(4.0, 100.0 / 100.0, 102.08 / 100.0) == (255, 265, 266)
  {
    var c := Chroma(1.0, 1.0208);
    assert c == -0.0416;
    assert Trunc(4.0 / 60.0 / 2.0) == 0;
    assert RemTwo(4.0 / 60.0) == 1.0 / 15.0;
    var x := Intermediate(4.0, c);
    assert x == -0.0416 / 15.0;
    var m := Match(1.0208, c);
    assert m == 1.0416;
    assert Sector(4.0, c, x) == (c, x, 0.0);
    assert Round((c + m) * 255.0) == 255;
    assert Round((x + m) * 255.0) == 265;
    assert Round((0.0 + m) * 255.0) == 266;
  }

  lemma RedBase()
    ensures BaseHsl("#ff0000") == Hsl(0.0, 100.0, 50.0)
  {
    assert "#ff0000"[1..] == "ff0000";
    assert ParseDigits("ff0000") == 16711680 by {
      assert "ff0000"[..5] == "ff000";
      assert "ff000"[..4] == "ff00";
      assert "ff00"[..3] == "ff0";
      assert "ff0"[..2] == "ff";
      assert "ff"[..1] == "f";
    }
    SplitBytes(255, 0, 0);
    assert HexToRgb("#ff0000") == Rgb(255, 0, 0);
    var u := UnroundedHsl(Rgb(255, 0, 0));
    assert u == Hsl(0.0, 100.0, 50.0);
    assert Cents(100.0) == 10000 && Cents(50.0) == 5000 && Cents(0.0) == 0;
  }

  lemma RedShift()
    ensures ShiftedLightness(BaseHsl("#ff0000"))[7] == 41.0
    ensures StepHue(BaseHsl("#ff0000"), 7) == -1.0
  {
    RedBase();
    var base := Hsl(0.0, 100.0, 50.0);
    var t := LightnessTable;
    assert IsFirstClosest(t, 50.0, 6) by {
      assert forall j | 0 <= j < 6 :: Distance(t[j], 50.0) > 0.0;
    }
    FirstClosestUnique(t, 50.0, 6, Anchor(base));
    assert Offset(base) == 0.0;
    assert Cents(41.0) == 4100;
  }

  lemma GreyChannels()
    ensures HslToRgb(-1.0, 77.0 / 100.0, 41.0 / 100.0) == (24, 24, 24)
  {
    HslToRgbOutsideHues(-1.0, 0.77, 0.41);
    assert Match(0.41, Chroma(0.77, 0.41)) == 0.0943;
  }

  /**
   * As written: for pure red (hue 0, lightness 50, anchored at step "600") the working
   * hue of step "700" is -1, which no sector of `hslToRgb` accepts, so the step is the
   * grey "#181818" instead of a dark red.
   */
  lemma NegativeHueExample()
    ensures StepHue(BaseHsl("#ff0000"), 7) == -1.0
    ensures StepHex("#ff0000", 7) == "#181818"
  {
    RedShift();
    GreyHex();
  }

  lemma GreyHex()
    ensures HslToHex(-1.0, 77.0, 41.0) == "#181818"
  {
    GreyChannels();
    GreyText();
  }

  lemma GreyText()
    ensures FormatHex(24, 24, 24) == "#181818"
  {
    assert HexNat(24) == "18";
  }

  /** The hue taken into [0, 360) by whole turns, as the colour wheel intends. */
  function WrapHue(h: real): (w: real)
    ensures 0.0 <= w < 360.0
    ensures 0.0 <= h < 360.0 ==> w == h
    ensures h - w == 360.0 * ((h - w) / 360.0).Floor as real
  {
    var turns := (h / 360.0).Floor;
    WrapBounds(h, turns);
    h - 360.0 * turns as real
  }

  lemma WrapBounds(h: real, turns: int)
    requires turns == (h / 360.0).Floor
    ensures 0.0 <= h - 360.0 * turns as real < 360.0
    ensures 0.0 <= h < 360.0 ==> turns == 0
  {
    assert turns as real <= h / 360.0 < turns as real + 1.0;
  }

  /** A percentage held inside [0, 100]. */
  function ClampPercent(x: real): (y: real)
    ensures 0.0 <= y <= 100.0
    ensures 0.0 <= x <= 100.0 ==> y == x
    ensures x < 0.0 ==> y == 0.0
    ensures x > 100.0 ==> y == 100.0
  {
    if x < 0.0 then 0.0 else if x > 100.0 then 100.0 else x
  }

  /** The calibrated step with its hue wrapped and its lightness clamped. */
  function CorrectedStepHex(baseColor: string, i: nat): string
    requires WellFormed(baseColor) && i < 11
  {
    var base := BaseHsl(baseColor);
    HslToHex(WrapHue(StepHue(base, i)), SaturationTable[i], ClampPercent(ShiftedLightness(base)[i]))
  }

  lemma CorrectedStepIs(baseColor: string, i: nat, h: real, sp: real, lp: real)
    requires WellFormed(baseColor) && i < 11
    requires h == WrapHue(StepHue(BaseHsl(baseColor), i)) && sp == SaturationTable[i]
    requires lp == ClampPercent(ShiftedLightness(BaseHsl(baseColor))[i])
    ensures CorrectedStepHex(baseColor, i) == HslToHex(h, sp, lp)
  {
  }

  lemma SaturationInRange(i: nat)
    requires i < 11
    ensures 70.0 <= SaturationTable[i] <= 100.0
  {
  }

  /**
   * Every corrected step is a canonical `#rrggbb` colour, and it decodes to the channels
   * `hslToRgb` computes for the wrapped hue and the clamped lightness.
   */
  lemma CorrectedStepIsColour(baseColor: string, i: nat)
    requires WellFormed(baseColor) && i < 11
    ensures IsCanonical(CorrectedStepHex(baseColor, i))
    ensures var base := BaseHsl(baseColor);
      var t := HslToRgb(WrapHue(StepHue(base, i)), SaturationTable[i] / 100.0,
        ClampPercent(ShiftedLightness(base)[i]) / 100.0);
      var rgb := HexToRgb(CorrectedStepHex(baseColor, i));
      rgb.r == t.0 && rgb.g == t.1 && rgb.b == t.2
  {
    var base := BaseHsl(baseColor);
    var h, sp, lp := WrapHue(StepHue(base, i)), SaturationTable[i], ClampPercent(ShiftedLightness(base)[i]);
    SaturationInRange(i);
    CorrectedStepIs(baseColor, i, h, sp, lp);
  }

  /**
   * The channels `hslToRgb` gives for hue `h`, saturation `s` and lightness `l` are the
   * rounded `c + m`, `x + m` and `m`, in the order of the hue's sector.
   */
  predicate ChannelsInSector(h: real, s: real, l: real) {
    var c := Chroma(s, l);
    var m := Match(l, c);
    IsPermutation(HslToRgb(h, s, l), Round((c + m) * 255.0), Round((Intermediate(h, c) + m) * 255.0), Round(m * 255.0))
  }

  lemma WheelHueInSector(h: real, s: real, l: real)
    requires 0.0 <= h < 360.0
    ensures ChannelsInSector(h, s, l)
  {
    HslToRgbPermutes(h, s, l);
  }

  /**
   * Every corrected step lies in a sector of the colour wheel, never on the grey of a
   * hue no sector accepts.
   */
  lemma CorrectedStepInSector(baseColor: string, i: nat)
    requires WellFormed(baseColor) && i < 11
    ensures var base := BaseHsl(baseColor);
      ChannelsInSector(WrapHue(StepHue(base, i)), SaturationTable[i] / 100.0, ClampPercent(ShiftedLightness(base)[i]) / 100.0)
  {
    var base := BaseHsl(baseColor);
    WheelHueInSector(WrapHue(StepHue(base, i)), SaturationTable[i] / 100.0, ClampPercent(ShiftedLightness(base)[i]) / 100.0);
  }

  /** Where the source stays inside the wheel and the percentage range, nothing changes. */
  lemma CorrectionKeepsInRangeSteps(baseColor: string, i: nat)
    requires WellFormed(baseColor) && i < 11
    requires 0.0 <= StepHue(BaseHsl(baseColor), i) < 360.0
    requires 0.0 <= ShiftedLightness(BaseHsl(baseColor))[i] <= 100.0
    ensures CorrectedStepHex(baseColor, i) == StepHex(baseColor, i)
  {
  }

  lemma RedChannels()
    ensures HslToRgb(359.0, 77.0 / 100.0, 41.0 / 100.0) == (185, 24, 27)
  {
    var c := Chroma(0.77, 0.41);
    assert c == 0.6314;
    assert Trunc(359.0 / 60.0 / 2.0) == 2;
    var x := Intermediate(359.0, c);
    assert x == 0.6314 / 60.0;
    var m := Match(0.41, c);
    assert m == 0.0943;
    assert Sector(359.0, c, x) == (c, 0.0, x);
    assert Round((0.0 + m) * 255.0) == 24;
  }

  /** Corrected, step "700" of pure red is the dark red "#b9181b". */
  lemma CorrectedRedExample()
    ensures CorrectedStepHex("#ff0000", 7) == "#b9181b"
  {
    RedShift();
    WrapMinusOne();
    CorrectedStepIs("#ff0000", 7, 359.0, 77.0, 41.0);
    RedHex();
  }

  lemma WrapMinusOne()
    ensures WrapHue(-1.0) == 359.0
  {
    assert (-1.0 / 360.0).Floor == -1;
  }

  lemma RedHex()
    ensures HslToHex(359.0, 77.0, 41.0) == "#b9181b"
  {
    RedChannels();
    RedText();
  }

  lemma RedText()
    ensures FormatHex(185, 24, 27) == "#b9181b"
  {
    assert HexNat(185) == "b9";
    assert HexNat(24) == "18";
    assert HexNat(27) == "1b";
  }
}
