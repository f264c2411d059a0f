/**
 * Relative luminance and the contrast ratio of success criterion 1.4.3 of the Web
 * Content Accessibility Guidelines (WCAG) 2.1: `(L1 + 0.05) / (L2 + 0.05)` with the
 * lighter colour on top.
 */
module Contrast {
  import opened Hex

  /**
   * What `luminance` needs of `Math.pow(y, 2.4)`, which Dafny's reals cannot express:
   * on [0, 1] it stays in [0, 1] and it maps 1 to 1. The caller passes the curve.
   */
  ghost predicate IsGammaCurve(power: real -> real) {
    && (forall y :: 0.0 <= y <= 1.0 ==> 0.0 <= power(y) <= 1.0)
    && power(1.0) == 1.0
  }

  /** One channel of `luminance`, decoded from gamma: linear near black, the power curve above. */
  function Linearize(v: Byte, power: real -> real): (a: real)
    requires IsGammaCurve(power)
    ensures 0.0 <= a <= 1.0
  {
    var u := v as real / 255.0;
    if u <= 0.03928 then u / 12.92 else power((u + 0.055) / 1.055)
  }

  /** `luminance(r, g, b)`: the weighted sum of the decoded channels, a value in [0, 1]. */
  function Luminance(c: Rgb, power: real -> real): (y: real)
    requires IsGammaCurve(power)
    ensures 0.0 <= y <= 1.0
  {
    0.2126 * Linearize(c.r, power) + 0.7152 * Linearize(c.g, power) + 0.0722 * Linearize(c.b, power)
  }

  /** The final comparison of `contrastRatio`, on the two offset luminances. */
  function LargerOverSmaller(l1: real, l2: real): real
    requires l1 > 0.0 && l2 > 0.0
  {
    if l1 > l2 then l1 / l2 else l2 / l1
  }

  lemma QuotientAtLeastOne(a: real, b: real, q: real)
    requires 0.0 < b <= a && q == a / b
    ensures 1.0 <= q
  {
    assert q * b == a;
  }

  lemma QuotientAtMost(a: real, b: real, q: real, k: real)
    requires 0.0 < b && a <= k * b && q == a / b
    ensures q <= k
  {
    assert q * b == a;
  }

  /**
   * Whatever the order of its arguments, the comparison divides the larger offset
   * luminance by the smaller one: the result is the same both ways round, at least 1,
   * and 1 exactly when the two are equal.
   */
  lemma LargerOverSmallerProperties(l1: real, l2: real)
    requires l1 > 0.0 && l2 > 0.0
    ensures LargerOverSmaller(l1, l2) == LargerOverSmaller(l2, l1)
    ensures LargerOverSmaller(l1, l2) >= 1.0
    ensures LargerOverSmaller(l1, l2) == 1.0 <==> l1 == l2
  {
    var q := LargerOverSmaller(l1, l2);
    if l1 > l2 {
      QuotientAtLeastOne(l1, l2, q);
      assert q * l2 == l1;
    } else if l2 > l1 {
      QuotientAtLeastOne(l2, l1, q);
      assert q * l1 == l2;
    } else {
      assert q == l1 / l1;
    }
  }

  /** Offset luminances of colours (each in [0.05, 1.05]) are at most 21 apart as a ratio. */
  lemma LargerOverSmallerAtMost21(l1: real, l2: real)
    requires 0.05 <= l1 <= 1.05 && 0.05 <= l2 <= 1.05
    ensures LargerOverSmaller(l1, l2) <= 21.0
  {
    var q := LargerOverSmaller(l1, l2);
    if l1 > l2 {
      QuotientAtMost(l1, l2, q, 21.0);
    } else {
      QuotientAtMost(l2, l1, q, 21.0);
    }
  }

  /**
   * `contrastRatio(hex1, hex2)`: symmetric in its arguments (lemma ContrastSymmetric),
   * between 1 and 21, and 1 exactly for colours of equal luminance.
   */
  function ContrastRatio(hex1: string, hex2: string, power: real -> real): (ratio: real)
    requires WellFormed(hex1) && WellFormed(hex2) && IsGammaCurve(power)
    ensures 1.0 <= ratio <= 21.0
    ensures ratio == 1.0 <==> Luminance(HexToRgb(hex1), power) == Luminance(HexToRgb(hex2), power)
  {
    var l1 := Luminance(HexToRgb(hex1), power) + 0.05;
    var l2 := Luminance(HexToRgb(hex2), power) + 0.05;
    LargerOverSmallerProperties(l1, l2);
    LargerOverSmallerAtMost21(l1, l2);
    LargerOverSmaller(l1, l2)
  }

  lemma ContrastSymmetric(hex1: string, hex2: string, power: real -> real)
    requires WellFormed(hex1) && WellFormed(hex2) && IsGammaCurve(power)
    ensures ContrastRatio(hex1, hex2, power) == ContrastRatio(hex2, hex1, power)
  {
    var l1 := Luminance(HexToRgb(hex1), power) + 0.05;
    var l2 := Luminance(HexToRgb(hex2), power) + 0.05;
    LargerOverSmallerProperties(l1, l2);
  }

  lemma BlackIsZero()
    ensures HexToRgb("#000000") == Rgb(0, 0, 0)
  {
    assert "#000000"[1..] == "000000";
    assert ParseDigits("000000") == 0 by {
      assert "000000"[..5] == "00000";
      assert "00000"[..4] == "0000";
      assert "0000"[..3] == "000";
      assert "000"[..2] == "00";
      assert "00"[..1] == "0";
    }
  }

  lemma WhiteIsFull()
    ensures HexToRgb("#ffffff") == Rgb(255, 255, 255)
  {
    assert "#ffffff"[1..] == "ffffff";
    assert ParseDigits("ffffff") == 16777215 by {
      assert "ffffff"[..5] == "fffff";
      assert "fffff"[..4] == "ffff";
      assert "ffff"[..3] == "fff";
      assert "fff"[..2] == "ff";
      assert "ff"[..1] == "f";
    }
  }

  /** Black on white reaches the largest ratio, 21. */
  lemma BlackOnWhite(power: real -> real)
    requires IsGammaCurve(power)
    ensures ContrastRatio("#000000", "#ffffff", power) == 21.0
  {
    BlackIsZero();
    WhiteIsFull();
    assert Luminance(Rgb(255, 255, 255), power) == 1.0 by {
      assert Linearize(255, power) == power(1.0);
    }
    assert Luminance(Rgb(0, 0, 0), power) == 0.0;
    assert LargerOverSmaller(0.05, 1.05) == 21.0;
  }

  lemma WhiteLuminance(power: real -> real)
    requires IsGammaCurve(power)
    ensures Luminance(HexToRgb("#ffffff"), power) == 1.0
  {
    WhiteIsFull();
    assert Linearize(255, power) == power(1.0);
  }

  lemma BlackLuminance(power: real -> real)
    requires IsGammaCurve(power)
    ensures Luminance(HexToRgb("#000000"), power) == 0.0
  {
    BlackIsZero();
  }

  /**
   * Against white a colour's ratio is `1.05 / (L + 0.05)`, against black `(L + 0.05) / 0.05`,
   * for its luminance `L`; lemma WhiteTimesBlack multiplies the two.
   */
  lemma AgainstWhite(hex: string, power: real -> real)
    requires WellFormed(hex) && IsGammaCurve(power)
    ensures ContrastRatio(hex, "#ffffff", power) == 1.05 / (Luminance(HexToRgb(hex), power) + 0.05)
  {
    WhiteLuminance(power);
    ContrastAgainst(hex, "#ffffff", power, 1.05);
  }

  lemma AgainstBlack(hex: string, power: real -> real)
    requires WellFormed(hex) && IsGammaCurve(power)
    ensures ContrastRatio(hex, "#000000", power) == 20.0 * (Luminance(HexToRgb(hex), power) + 0.05)
  {
    BlackLuminance(power);
    ContrastAgainst(hex, "#000000", power, 0.05);
  }

  lemma ContrastAgainst(hex: string, other: string, power: real -> real, offset: real)
    requires WellFormed(hex) && WellFormed(other) && IsGammaCurve(power)
    requires Luminance(HexToRgb(other), power) + 0.05 == offset
    ensures ContrastRatio(hex, other, power) == LargerOverSmaller(Luminance(HexToRgb(hex), power) + 0.05, offset)
  {
  }

  /** Ratios `w = 1.05 / a` and `b = 20 · a` multiply to 21 for a positive `a`. */
  lemma ReciprocalTimes(w: real, b: real, a: real)
    requires a > 0.0 && w == 1.05 / a && b == 20.0 * a
    ensures w * b == 21.0
  {
    assert w * a == 1.05;
    assert w * b == 20.0 * (w * a);
  }

  /** Both ratios of a colour, in terms of its offset luminance `a`. */
  lemma BothRatios(hex: string, power: real -> real) returns (a: real)
    requires WellFormed(hex) && IsGammaCurve(power)
    ensures a > 0.0
    ensures ContrastRatio(hex, "#ffffff", power) == 1.05 / a
    ensures ContrastRatio(hex, "#000000", power) == 20.0 * a
  {
    a := Luminance(HexToRgb(hex), power) + 0.05;
    AgainstWhite(hex, power);
    AgainstBlack(hex, power);
  }

  /**
   * A colour's ratio `w` against white and its ratio `b` against black multiply to 21,
   * so the more it contrasts with one, the less it contrasts with the other.
   */
  lemma WhiteTimesBlack(hex: string, power: real -> real, w: real, b: real)
    requires WellFormed(hex) && IsGammaCurve(power)
    requires w == ContrastRatio(hex, "#ffffff", power) && b == ContrastRatio(hex, "#000000", power)
    ensures w * b == 21.0
  {
    var a := BothRatios(hex, power);
    ReciprocalTimes(w, b, a);
  }
}
