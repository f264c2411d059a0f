/**
 * The hexadecimal colour codec: `hexToRgb` reads `#RRGGBB` as one 24-bit number and
 * splits it into bytes; the tail of `hslToHex` writes three channels back as
 * zero-padded lower-case hexadecimal.
 */
module Hex {

  type Byte = x: int | 0 <= x < 256

  /** The RGB triple `[r, g, b]` that `hexToRgb` returns. */
  datatype Rgb = Rgb(r: Byte, g: Byte, b: Byte)

  predicate IsHexDigit(ch: char) {
    '0' <= ch <= '9' || 'a' <= ch <= 'f' || 'A' <= ch <= 'F'
  }

  predicate IsLowerHexDigit(ch: char) {
    '0' <= ch <= '9' || 'a' <= ch <= 'f'
  }

  /** The value `parseInt(…, 16)` gives one digit; both letter cases are accepted. */
  function DigitValue(ch: char): (v: nat)
    requires IsHexDigit(ch)
    ensures v < 16
  {
    if ch <= '9' then ch as int - '0' as int
    else if ch <= 'F' then ch as int - 'A' as int + 10
    else ch as int - 'a' as int + 10
  }

  /** The digit `toString(16)` writes for a value below 16. */
  function DigitChar(v: nat): (ch: char)
    requires v < 16
    ensures IsLowerHexDigit(ch) && DigitValue(ch) == v
  {
    if v < 10 then ('0' as int + v) as char else ('a' as int + v - 10) as char
  }

  function Pow16(n: nat): (p: nat)
    ensures p >= 1
  {
    if n == 0 then 1 else 16 * Pow16(n - 1)
  }

  predicate AllHexDigits(s: string) {
    forall i | 0 <= i < |s| :: IsHexDigit(s[i])
  }

  predicate AllLowerHexDigits(s: string) {
    forall i | 0 <= i < |s| :: IsLowerHexDigit(s[i])
  }

  /** `parseInt(s, 16)` on a string of hexadecimal digits, most significant first. */
  function ParseDigits(s: string): (v: nat)
    requires AllHexDigits(s)
    ensures v < Pow16(|s|)
  {
    if s == [] then 0
    else
      var init := s[..|s| - 1];
      assert AllHexDigits(init) by { assert forall i | 0 <= i < |init| :: init[i] == s[i]; }
      ParseDigits(init) * 16 + DigitValue(s[|s| - 1])
  }

  /**
   * What `hexToRgb` accepts: seven characters whose last six are hexadecimal digits.
   * The first character (the '#') is dropped by `hex.slice(1)` without being looked at.
   */
  predicate WellFormed(hex: string) {
    |hex| == 7 && AllHexDigits(hex[1..])
  }

  /** The colour string that `hslToHex` produces for byte channels. */
  predicate IsCanonical(hex: string) {
    WellFormed(hex) && hex[0] == '#' && AllLowerHexDigits(hex[1..])
  }

  /**
   * `hexToRgb`: `(v >> 16) & 255`, `(v >> 8) & 255`, `v & 255` of the parsed 24-bit
   * value `v`, written as division and remainder (the same for 0 <= v < 2^24).
   */
  function HexToRgb(hex: string): (c: Rgb)
    requires WellFormed(hex)
    ensures c.r * 65536 + c.g * 256 + c.b == ParseDigits(hex[1..])
  {
    var v := ParseDigits(hex[1..]);
    assert Pow16(6) == 16777216;
    RecomposeBytes(v);
    Rgb((v / 65536) % 256, (v / 256) % 256, v % 256)
  }

  /** For a 24-bit value the three masked bytes put back together give the value. */
  lemma RecomposeBytes(v: nat)
    requires v < 16777216
    ensures ((v / 65536) % 256) * 65536 + ((v / 256) % 256) * 256 + v % 256 == v
  {
    var q, b := v / 256, v % 256;
    assert v == 256 * q + b;
    var r, g := q / 256, q % 256;
    assert q == 256 * r + g;
    assert v == 65536 * r + (256 * g + b);
    assert 0 <= 256 * g + b < 65536;
    assert v / 65536 == r;
    assert r < 256;
  }

  /**
   * `n.toString(16)` for a non-negative integer: lower-case digits, with a leading zero
   * only for 0 itself. They read back as `n` (lemma HexNatRoundTrip).
   */
  function HexNat(n: nat): (s: string)
    ensures 1 <= |s| && AllLowerHexDigits(s)
    ensures n < 16 <==> |s| == 1
    ensures s[0] == '0' <==> n == 0
  {
    if n < 16 then [DigitChar(n)] else HexNat(n / 16) + [DigitChar(n % 16)]
  }

  /** Lower-case hexadecimal digits are hexadecimal digits. */
  lemma LowerAreHex(s: string)
    requires AllLowerHexDigits(s)
    ensures AllHexDigits(s)
  {
  }

  /** `parseInt(n.toString(16), 16) == n`. */
  lemma {:induction false} HexNatRoundTrip(n: nat)
    ensures AllHexDigits(HexNat(n)) && ParseDigits(HexNat(n)) == n
  {
    var s := HexNat(n);
    LowerAreHex(s);
    if n < 16 {
      assert s[..0] == [];
    } else {
      var p := HexNat(n / 16);
      assert s[..|s| - 1] == p;
      HexNatRoundTrip(n / 16);
    }
  }

  /** `n.toString(16)` for any integer: a minus sign in front of the magnitude. */
  function ToHexString(n: int): string {
    if n < 0 then "-" + HexNat(-n) else HexNat(n)
  }

  /** `s.padStart(2, "0")`. */
  function PadStart2(s: string): (p: string)
    ensures |p| == if |s| < 2 then 2 else |s|
    ensures p[|p| - |s|..] == s
    ensures forall i | 0 <= i < |p| - |s| :: p[i] == '0'
  {
    if |s| == 0 then "00" else if |s| == 1 then "0" + s else s
  }

  /** One channel as written by `hslToHex`: `n.toString(16).padStart(2, "0")`. */
  function FormatChannel(n: int): string {
    PadStart2(ToHexString(n))
  }

  /**
   * `n.toString(16)` starts with a minus sign exactly when `n` is negative; the digits
   * after it read back as the magnitude of `n`.
   */
  lemma ToHexStringDigits(n: int)
    ensures var t := ToHexString(n);
      |t| >= 1 && (t[0] == '-' <==> n < 0)
    ensures var t := ToHexString(n);
      var digits := if n < 0 then t[1..] else t;
      AllHexDigits(digits) && ParseDigits(digits) == if n < 0 then -n else n
  {
    var t := ToHexString(n);
    if n < 0 {
      assert t[1..] == HexNat(-n);
      HexNatRoundTrip(-n);
    } else {
      HexNatRoundTrip(n);
    }
  }

  /**
   * The text of a channel that is not negative is hexadecimal digits that read back as
   * the channel, whatever its size; a negative channel's text holds a minus sign, so
   * it is not hexadecimal.
   */
  lemma FormatChannelDigits(n: int)
    ensures n >= 0 ==> AllHexDigits(FormatChannel(n)) && ParseDigits(FormatChannel(n)) == n
    ensures n < 0 ==> !AllHexDigits(FormatChannel(n))
  {
    var t, f := ToHexString(n), FormatChannel(n);
    ToHexStringDigits(n);
    if n >= 0 {
      if |t| < 2 {
        assert f == "0" + t;
        assert ParseDigits("0") == 0 by { assert "0"[..0] == []; }
        ParseConcat("0", t);
      } else {
        assert f == t;
      }
    } else {
      assert f[|f| - |t|] == '-';
    }
  }

  /** The template string `#${r}${g}${b}` of formatted channels. */
  function FormatHex(r: int, g: int, b: int): (hex: string)
    ensures |hex| >= 7 && hex[0] == '#'
  {
    "#" + FormatChannel(r) + FormatChannel(g) + FormatChannel(b)
  }

  /** A byte is written as exactly two lower-case digits that parse back to it. */
  lemma FormatChannelByte(n: Byte)
    ensures |FormatChannel(n)| == 2
    ensures AllLowerHexDigits(FormatChannel(n)) && AllHexDigits(FormatChannel(n))
    ensures ParseDigits(FormatChannel(n)) == n
  {
    var s := FormatChannel(n);
    if n < 16 {
      assert s == ['0', DigitChar(n)];
      assert s[..1] == ['0'];
    } else {
      assert HexNat(n / 16) == [DigitChar(n / 16)];
      assert s == [DigitChar(n / 16), DigitChar(n % 16)];
      assert s[..1] == [DigitChar(n / 16)];
    }
  }

  /** Parsing a concatenation: the digits of `s` are shifted left by the length of `t`. */
  lemma {:induction false} ParseConcat(s: string, t: string)
    requires AllHexDigits(s) && AllHexDigits(t)
    ensures AllHexDigits(s + t)
    ensures ParseDigits(s + t) == ParseDigits(s) * Pow16(|t|) + ParseDigits(t)
  {
    assert AllHexDigits(s + t) by {
      forall i | 0 <= i < |s + t| ensures IsHexDigit((s + t)[i]) {
        if i < |s| { assert (s + t)[i] == s[i]; } else { assert (s + t)[i] == t[i - |s|]; }
      }
    }
    if t == [] {
      assert s + t == s;
    } else {
      var t' := t[..|t| - 1];
      assert AllHexDigits(t') by { assert forall i | 0 <= i < |t'| :: t'[i] == t[i]; }
      var d := DigitValue(t[|t| - 1]);
      assert ParseDigits(s + t) == ParseDigits(s + t') * 16 + d by {
        assert (s + t)[..|s + t| - 1] == s + t';
      }
      ParseConcat(s, t');
      ShiftStep(ParseDigits(s), Pow16(|t'|), ParseDigits(t'), d);
    }
  }

  lemma ShiftStep(a: int, p: int, c: int, d: int)
    ensures (a * p + c) * 16 + d == a * (p * 16) + (c * 16 + d)
  {
  }

  /** Splitting `r * 65536 + g * 256 + b` into bytes recovers `r`, `g` and `b`. */
  lemma SplitBytes(r: Byte, g: Byte, b: Byte)
    ensures ((r * 65536 + g * 256 + b) / 65536) % 256 == r
    ensures ((r * 65536 + g * 256 + b) / 256) % 256 == g
    ensures (r * 65536 + g * 256 + b) % 256 == b
  {
    var v := r * 65536 + g * 256 + b;
    assert v == (r * 256 + g) * 256 + b;
    assert v / 256 == r * 256 + g;
    assert v == r * 65536 + (g * 256 + b);
    assert v / 65536 == r;
  }

  /** The six digits after the '#' are the three two-digit channels, most significant first. */
  lemma FormatHexDigits(r: Byte, g: Byte, b: Byte)
    ensures |FormatHex(r, g, b)| == 7
    ensures AllLowerHexDigits(FormatHex(r, g, b)[1..]) && AllHexDigits(FormatHex(r, g, b)[1..])
    ensures ParseDigits(FormatHex(r, g, b)[1..]) == r * 65536 + g * 256 + b
  {
    FormatChannelByte(r);
    FormatChannelByte(g);
    FormatChannelByte(b);
    HashThenDigits(FormatChannel(r), FormatChannel(g), FormatChannel(b));
    ParseThree(FormatChannel(r), FormatChannel(g), FormatChannel(b));
  }

  lemma HashThenDigits(x: string, y: string, z: string)
    requires AllLowerHexDigits(x) && AllLowerHexDigits(y) && AllLowerHexDigits(z)
    ensures ("#" + x + y + z)[1..] == x + y + z
    ensures AllLowerHexDigits(x + y + z) && AllHexDigits(x + y + z)
  {
    var s := x + y + z;
    assert ("#" + x + y + z) == "#" + s;
    forall i | 0 <= i < |s| ensures IsLowerHexDigit(s[i]) {
      if i < |x| { assert s[i] == x[i]; }
      else if i < |x| + |y| { assert s[i] == y[i - |x|]; }
      else { assert s[i] == z[i - |x| - |y|]; }
    }
  }

  lemma ParseThree(x: string, y: string, z: string)
    requires AllHexDigits(x) && AllHexDigits(y) && AllHexDigits(z) && |y| == 2 && |z| == 2
    ensures AllHexDigits(x + y + z)
    ensures ParseDigits(x + y + z) == ParseDigits(x) * 65536 + ParseDigits(y) * 256 + ParseDigits(z)
  {
    assert Pow16(2) == 256;
    ParseConcat(x, y);
    ParseConcat(x + y, z);
  }

  /**
   * The formatting round trip: any three bytes are written as a canonical `#rrggbb`
   * string, and `hexToRgb` reads the same bytes back.
   */
  lemma FormatHexRoundTrip(r: Byte, g: Byte, b: Byte)
    ensures IsCanonical(FormatHex(r, g, b))
    ensures HexToRgb(FormatHex(r, g, b)) == Rgb(r, g, b)
  {
    FormatHexDigits(r, g, b);
    SplitBytes(r, g, b);
  }

  /** Parsing then formatting returns the colour in canonical (lower-case) spelling. */
  lemma ParseThenFormat(hex: string)
    requires WellFormed(hex)
    ensures var c := HexToRgb(hex); IsCanonical(FormatHex(c.r, c.g, c.b))
    ensures var c := HexToRgb(hex); HexToRgb(FormatHex(c.r, c.g, c.b)) == c
  {
    var c := HexToRgb(hex);
    FormatHexRoundTrip(c.r, c.g, c.b);
  }

  lemma HexToRgbExample()
    ensures HexToRgb("#ef4e74") == Rgb(239, 78, 116)
  {
    assert "#ef4e74"[1..] == "ef4e74";
    assert ParseDigits("ef4e74") == 15683188 by {
      assert "ef4e74"[..5] == "ef4e7";
      assert "ef4e7"[..4] == "ef4e";
      assert "ef4e"[..3] == "ef4";
      assert "ef4"[..2] == "ef";
      assert "ef"[..1] == "e";
      assert ""[..0] == "";
    }
  }
}
