/** The colour-text conversions of the colour picker: the hex notation check,
    hex to `rgb(...)`/`rgba(...)`, hex to `hsl(...)`/`hsla(...)` and the
    format dispatch that the picker applies to every committed colour. */
module Color {
  import opened Text

  // ---------------------------------------------------------- hex digits

  predicate IsHexDigit(c: char)
  {
    IsDigit(c) || 'a' <= c <= 'f' || 'A' <= c <= 'F'
  }

  predicate AllHex(s: string) { forall i :: 0 <= i < |s| ==> IsHexDigit(s[i]) }

  function HexValue(c: char): (v: nat)
    requires IsHexDigit(c)
    ensures v < 16
    ensures IsDigit(c) ==> v == DigitValue(c)
  {
    if IsDigit(c) then DigitValue(c)
    else if 'a' <= c <= 'f' then 10 + ((c as int) - ('a' as int))
    else 10 + ((c as int) - ('A' as int))
  }

  lemma HexValueIgnoresCase(c: char)
    requires IsHexDigit(c)
    ensures IsHexDigit(LowerChar(c)) && HexValue(LowerChar(c)) == HexValue(c)
  {
  }

  /** Lower-case hex digit for a value below 16. */
  function HexChar(v: nat): (c: char)
    requires v < 16
    ensures IsHexDigit(c) && HexValue(c) == v
  {
    if v < 10 then DigitChar(v) else (('a' as int) + (v - 10)) as char
  }

  /** The number of hex digits at the front of `s`. */
  function HexRun(s: string): (n: nat)
    ensures n <= |s| && AllHex(s[..n])
    ensures n < |s| ==> !IsHexDigit(s[n])
  {
    if s != [] && IsHexDigit(s[0]) then
      assert s[..1 + HexRun(s[1..])] == [s[0]] + s[1..][..HexRun(s[1..])];
      1 + HexRun(s[1..])
    else 0
  }

  /** `isValidHexColor`: the text is "#" followed by nothing but hex digits,
      and there are three or six of them. */
  function IsValidHexColor(s: string): (b: bool)
    ensures b <==> |s| >= 1 && s[0] == '#' && AllHex(s[1..]) && (|s| == 4 || |s| == 7)
  {
    s != [] && s[0] == '#' && var n := HexRun(s[1..]); n == |s| - 1 && (n == 3 || n == 6)
  }

  /** Validity does not depend on the case of the hex letters. */
  lemma ValidHexIgnoresCase(s: string)
    ensures IsValidHexColor(ToLower(s)) == IsValidHexColor(s)
  {
    var t := ToLower(s);
    if |s| >= 1 {
      assert t[1..] == ToLower(s[1..]);
      assert AllHex(t[1..]) <==> AllHex(s[1..]) by {
        forall i | 0 <= i < |s| - 1
          ensures IsHexDigit(t[1..][i]) <==> IsHexDigit(s[1..][i])
        {
          assert t[1..][i] == LowerChar(s[1..][i]);
        }
      }
    }
  }

  // ------------------------------------------------------------ channels

  /** The three digit pairs that `/^#?([a-f\d]{2}){3}$/i` captures: six hex
      digits, with or without one leading "#". */
  function SixHex(hex: string): (r: Option<string>)
    ensures r.Some? ==> |r.value| == 6 && AllHex(r.value) && EndsWith(hex, r.value)
    ensures r.Some? <==> (|hex| == 6 && AllHex(hex)) || (|hex| == 7 && hex[0] == '#' && AllHex(hex[1..]))
  {
    if |hex| == 7 && hex[0] == '#' then
      (if HexRun(hex[1..]) == 6 then Some(hex[1..]) else None)
    else if |hex| == 6 && HexRun(hex) == 6 then Some(hex)
    else None
  }

  /** `parseInt(pair, 16)` for two hex digits. */
  function PairValue(hi: char, lo: char): (v: nat)
    requires IsHexDigit(hi) && IsHexDigit(lo)
    ensures v < 256
  {
    16 * HexValue(hi) + HexValue(lo)
  }

  /** The two-digit lower-case hex text of a byte. */
  function ByteHex(v: nat): (s: string)
    requires v < 256
    ensures |s| == 2 && AllHex(s)
  {
    [HexChar(v / 16), HexChar(v % 16)]
  }

  lemma ByteHexRoundTrip(v: nat)
    requires v < 256
    ensures PairValue(ByteHex(v)[0], ByteHex(v)[1]) == v
  {
  }

  datatype Rgb = Rgb(r: nat, g: nat, b: nat)

  predicate IsByteTriple(c: Rgb) { c.r < 256 && c.g < 256 && c.b < 256 }

  /** The red, green and blue byte values of a matching hex text. */
  function Channels(hex: string): (c: Option<Rgb>)
    ensures c.Some? <==> SixHex(hex).Some?
    ensures c.Some? ==> IsByteTriple(c.value)
  {
    match SixHex(hex)
    case None => None
    case Some(d) => Some(Rgb(PairValue(d[0], d[1]), PairValue(d[2], d[3]), PairValue(d[4], d[5])))
  }

  /** Writing three bytes as "#rrggbb" and reading them back gives the bytes. */
  lemma ChannelsRoundTrip(c: Rgb)
    requires IsByteTriple(c)
    ensures Channels("#" + ByteHex(c.r) + ByteHex(c.g) + ByteHex(c.b)) == Some(c)
  {
    var x, y, z := ByteHex(c.r), ByteHex(c.g), ByteHex(c.b);
    var d := x + y + z;
    SixHexOfHashed(d);
    assert d[0] == x[0] && d[1] == x[1] && d[2] == y[0] && d[3] == y[1] && d[4] == z[0] && d[5] == z[1];
    ByteHexRoundTrip(c.r);
    ByteHexRoundTrip(c.g);
    ByteHexRoundTrip(c.b);
  }

  lemma SixHexOfHashed(d: string)
    requires |d| == 6 && AllHex(d)
    ensures SixHex("#" + d) == Some(d)
  {
    assert ("#" + d)[1..] == d;
  }

  lemma AllHexIgnoresCase(s: string)
    ensures AllHex(ToLower(s)) == AllHex(s)
  {
    var t := ToLower(s);
    forall i | 0 <= i < |s| ensures IsHexDigit(t[i]) <==> IsHexDigit(s[i]) {
      assert t[i] == LowerChar(s[i]);
    }
  }

  /** The channels are read the same in upper and lower case. */
  lemma ChannelsIgnoreCase(hex: string)
    ensures Channels(ToLower(hex)) == Channels(hex)
  {
    SixHexIgnoresCase(hex);
    if SixHex(hex).Some? {
      PairsIgnoreCase(SixHex(hex).value);
    }
  }

  /** Lower-casing a text lower-cases the six digits it matches with. */
  lemma SixHexIgnoresCase(hex: string)
    ensures SixHex(ToLower(hex)).Some? == SixHex(hex).Some?
    ensures SixHex(hex).Some? ==> SixHex(ToLower(hex)).value == ToLower(SixHex(hex).value)
  {
    var t := ToLower(hex);
    AllHexIgnoresCase(hex);
    if |hex| == 7 {
      assert t[1..] == ToLower(hex[1..]);
      AllHexIgnoresCase(hex[1..]);
      assert t[0] == '#' <==> hex[0] == '#';
    }
  }

  /** The three byte values of six hex digits do not depend on their case. */
  lemma PairsIgnoreCase(d: string)
    requires |d| == 6 && AllHex(d)
    ensures var e := ToLower(d);
      && AllHex(e)
      && PairValue(e[0], e[1]) == PairValue(d[0], d[1])
      && PairValue(e[2], e[3]) == PairValue(d[2], d[3])
      && PairValue(e[4], e[5]) == PairValue(d[4], d[5])
  {
    AllHexIgnoresCase(d);
    HexValueIgnoresCase(d[0]);
    HexValueIgnoresCase(d[1]);
    HexValueIgnoresCase(d[2]);
    HexValueIgnoresCase(d[3]);
    HexValueIgnoresCase(d[4]);
    HexValueIgnoresCase(d[5]);
  }

  // ------------------------------------------------------------ rgb text

  function RgbText(c: Rgb, alpha: Option<string>): string
  {
    var body := NatText(c.r) + ", " + NatText(c.g) + ", " + NatText(c.b);
    match alpha
    case None => "rgb(" + body + ")"
    case Some(a) => "rgba(" + body + ", " + a + ")"
  }

  /** `hexToRgb`: the rgb text of the channels of a matching hex text, or the
      text itself when it does not match. `alpha` is the text JavaScript
      prints for the alpha number. */
  function HexToRgb(hex: string, alpha: Option<string>): string
  {
    match Channels(hex)
    case None => hex
    case Some(c) => RgbText(c, alpha)
  }

  /** The conversion changes its input exactly when the input matches. */
  lemma HexToRgbChangesExactlyMatches(hex: string, alpha: Option<string>)
    ensures HexToRgb(hex, alpha) == hex <==> SixHex(hex).None?
  {
    if SixHex(hex).Some? {
      var r := HexToRgb(hex, alpha);
      assert r[0] == 'r';
      assert hex[0] == '#' || IsHexDigit(hex[0]);
    }
  }

  /** The shape of a converted colour: "rgb(" or "rgba(" according to alpha,
      the three decimal byte values, the alpha text, ")". */
  lemma HexToRgbShape(hex: string, alpha: Option<string>)
    requires SixHex(hex).Some?
    ensures alpha.None? ==> StartsWith(HexToRgb(hex, alpha), "rgb(")
    ensures alpha.Some? ==>
      StartsWith(HexToRgb(hex, alpha), "rgba(") && EndsWith(HexToRgb(hex, alpha), ", " + alpha.value + ")")
    ensures EndsWith(HexToRgb(hex, alpha), ")")
  {
    RgbTextShape(Channels(hex).value, alpha);
  }

  lemma RgbTextShape(c: Rgb, alpha: Option<string>)
    ensures alpha.None? ==> StartsWith(RgbText(c, alpha), "rgb(")
    ensures alpha.Some? ==>
      StartsWith(RgbText(c, alpha), "rgba(") && EndsWith(RgbText(c, alpha), ", " + alpha.value + ")")
    ensures EndsWith(RgbText(c, alpha), ")")
  {
    var body := NatText(c.r) + ", " + NatText(c.g) + ", " + NatText(c.b);
    match alpha
    case None =>
      PrefixSuffix("rgb(", body, ")");
    case Some(a) =>
      PrefixSuffix("rgba(", body + ", " + a, ")");
      assert "rgba(" + (body + ", " + a) + ")" == "rgba(" + body + ", " + a + ")";
      PrefixSuffix("rgba(" + body, "", ", " + a + ")");
      assert "rgba(" + body + "" + (", " + a + ")") == "rgba(" + body + ", " + a + ")";
  }

  lemma PrefixSuffix(p: string, m: string, q: string)
    ensures StartsWith(p + m + q, p) && EndsWith(p + m + q, q)
  {
    assert (p + m + q)[..|p|] == p;
    assert (p + m + q)[|p + m + q| - |q|..] == q;
  }

  lemma RedToRgb()
    ensures HexToRgb("#ff0000", None) == "rgb(255, 0, 0)"
  {
    RedChannels();
    RedRgbText();
  }

  lemma RedRgbText()
    ensures RgbText(Rgb(255, 0, 0), None) == "rgb(255, 0, 0)"
  {
    assert NatText(255) == "255" by {
      assert NatText(2) == "2";
      assert NatText(25) == "25";
    }
    assert NatText(0) == "0";
  }

  lemma RedChannels()
    ensures Channels("#ff0000") == Some(Rgb(255, 0, 0))
  {
    var h := "#ff0000";
    assert h[1..] == "ff0000";
    assert AllHex(h[1..]);
    assert SixHex(h) == Some("ff0000");
  }

  // ------------------------------------------------------------ hsl

  /** `Math.round` for a non-negative real: halves round up. */
  function Round(x: real): (n: int)
    ensures x - 0.5 < n as real <= x + 0.5
  {
    (x + 0.5).Floor
  }

  function Max3(a: real, b: real, c: real): real
  {
    if a >= b && a >= c then a else if b >= c then b else c
  }

  function Min3(a: real, b: real, c: real): real
  {
    if a <= b && a <= c then a else if b <= c then b else c
  }

  datatype Hsl = Hsl(h: real, s: real, l: real)

  /** The hue, saturation and lightness of three bytes, each as a fraction:
      the channels are scaled to 0..1, lightness is the mid-range, and when
      the channels differ the saturation and the hue sextant follow the
      channel that is largest, red before green before blue. */
  function ToHsl(c: Rgb): (x: Hsl)
    requires IsByteTriple(c)
  {
    var r, g, b := c.r as real / 255.0, c.g as real / 255.0, c.b as real / 255.0;
    var max, min := Max3(r, g, b), Min3(r, g, b);
    var l := (max + min) / 2.0;
    if max == min then Hsl(0.0, 0.0, l)
    else
      var d := max - min;
      assert d > 0.0;
      assert l > 0.5 ==> 2.0 - max - min > 0.0;
      assert l <= 0.5 ==> max + min > 0.0;
      var s := if l > 0.5 then d / (2.0 - max - min) else d / (max + min);
      var h :=
        if max == r then (g - b) / d + (if g < b then 6.0 else 0.0)
        else if max == g then (b - r) / d + 2.0
        else (r - g) / d + 4.0;
      Hsl(h / 6.0, s, l)
  }

  lemma MinMaxBounds(a: real, b: real, c: real)
    requires 0.0 <= a <= 1.0 && 0.0 <= b <= 1.0 && 0.0 <= c <= 1.0
    ensures var max, min := Max3(a, b, c), Min3(a, b, c);
      0.0 <= min <= max <= 1.0
      && min <= a <= max && min <= b <= max && min <= c <= max
      && (max == a || max == b || max == c)
  {
  }

  /** Hue lies in [0, 1), saturation and lightness in [0, 1]. */
  lemma HslBounds(c: Rgb)
    requires IsByteTriple(c)
    ensures var x := ToHsl(c);
      0.0 <= x.h < 1.0 && 0.0 <= x.s <= 1.0 && 0.0 <= x.l <= 1.0
  {
    HueBounds(c);
    SaturationBounds(c);
    MinMaxBounds(c.r as real / 255.0, c.g as real / 255.0, c.b as real / 255.0);
  }

  lemma HueBounds(c: Rgb)
    requires IsByteTriple(c)
    ensures 0.0 <= ToHsl(c).h < 1.0
  {
    var r, g, b := c.r as real / 255.0, c.g as real / 255.0, c.b as real / 255.0;
    MinMaxBounds(r, g, b);
    var max, min := Max3(r, g, b), Min3(r, g, b);
    if max != min {
      var d := max - min;
      if max == r {
        SignedFraction(g - b, d);
      } else if max == g {
        SignedFraction(b - r, d);
      } else {
        SignedFraction(r - g, d);
      }
    }
  }

  lemma SaturationBounds(c: Rgb)
    requires IsByteTriple(c)
    ensures 0.0 <= ToHsl(c).s <= 1.0
  {
    var r, g, b := c.r as real / 255.0, c.g as real / 255.0, c.b as real / 255.0;
    MinMaxBounds(r, g, b);
    var max, min := Max3(r, g, b), Min3(r, g, b);
    if max != min {
      var d := max - min;
      if (max + min) / 2.0 > 0.5 {
        FractionBounds(d, 2.0 - max - min);
      } else {
        FractionBounds(d, max + min);
      }
    }
  }

  lemma FractionBounds(n: real, m: real)
    requires 0.0 <= n <= m && m > 0.0
    ensures 0.0 <= n / m <= 1.0
  {
  }

  lemma SignedFraction(n: real, d: real)
    requires d > 0.0 && -d <= n <= d
    ensures -1.0 <= n / d <= 1.0
    ensures n < 0.0 ==> n / d < 0.0
    ensures n >= 0.0 ==> n / d >= 0.0
  {
    var q := n / d;
    assert q * d == n;
  }

  /** Equal channels are a grey: no hue and no saturation. */
  lemma GreyHasNoHue(v: nat)
    requires v < 256
    ensures ToHsl(Rgb(v, v, v)).h == 0.0 && ToHsl(Rgb(v, v, v)).s == 0.0
  {
  }

  function HslText(x: Hsl, alpha: Option<string>): string
  {
    var body := IntText(Round(x.h * 360.0)) + ", " + IntText(Round(x.s * 100.0)) + "%, "
      + IntText(Round(x.l * 100.0)) + "%";
    match alpha
    case None => "hsl(" + body + ")"
    case Some(a) => "hsla(" + body + ", " + a + ")"
  }

  /** `hexToHsl`: the hsl text of a matching hex text, or the text itself. */
  function HexToHsl(hex: string, alpha: Option<string>): string
  {
    match Channels(hex)
    case None => hex
    case Some(c) => HslText(ToHsl(c), alpha)
  }

  /** The rounded degrees lie in 0..360 and the percentages in 0..100. */
  lemma HslRoundedBounds(c: Rgb)
    requires IsByteTriple(c)
    ensures var x := ToHsl(c);
      0 <= Round(x.h * 360.0) <= 360 && 0 <= Round(x.s * 100.0) <= 100
      && 0 <= Round(x.l * 100.0) <= 100
  {
    HslBounds(c);
  }

  lemma HexToHslChangesExactlyMatches(hex: string, alpha: Option<string>)
    ensures HexToHsl(hex, alpha) == hex <==> SixHex(hex).None?
  {
    if SixHex(hex).Some? {
      var r := HexToHsl(hex, alpha);
      assert r[0] == 'h';
      assert hex[0] == '#' || IsHexDigit(hex[0]);
    }
  }

  lemma RedToHsl()
    ensures HexToHsl("#ff0000", None) == "hsl(0, 100%, 50%)"
  {
    RedChannels();
    RedHsl();
    RedHslText();
  }

  lemma RedHslText()
    ensures HslText(Hsl(0.0, 1.0, 0.5), None) == "hsl(0, 100%, 50%)"
  {
    assert Round(0.0 * 360.0) == 0 && Round(1.0 * 100.0) == 100 && Round(0.5 * 100.0) == 50;
    RedHslNumbers();
  }

  lemma RedHslNumbers()
    ensures IntText(0) == "0" && IntText(100) == "100" && IntText(50) == "50"
  {
    assert NatText(0) == "0";
    assert NatText(100) == "100" by {
      assert NatText(1) == "1";
      assert NatText(10) == "10";
    }
    assert NatText(50) == "50" by {
      assert NatText(5) == "5";
    }
  }

  lemma RedHsl()
    ensures ToHsl(Rgb(255, 0, 0)) == Hsl(0.0, 1.0, 0.5)
  {
    assert Max3(1.0, 0.0, 0.0) == 1.0 && Min3(1.0, 0.0, 0.0) == 0.0;
  }

  // ------------------------------------------------------ format dispatch

  datatype ColorFormat = Hex | RgbFormat | HslFormat

  /** `convertColor`: only a text starting with "#" is converted; hex leaves
      it as it is, whatever the alpha. */
  function ConvertColor(color: string, format: ColorFormat, alpha: Option<string>): string
  {
    if color == [] || !StartsWith(color, "#") then color
    else match format
      case Hex => color
      case RgbFormat => HexToRgb(color, alpha)
      case HslFormat => HexToHsl(color, alpha)
  }

  /** Text that is empty or does not start with "#" passes through. */
  lemma ConvertKeepsNonHex(color: string, format: ColorFormat, alpha: Option<string>)
    requires color == [] || color[0] != '#'
    ensures ConvertColor(color, format, alpha) == color
  {
    if color != [] {
      assert !StartsWith(color, "#") by {
        assert color[..1][0] != "#"[0];
      }
    }
  }

  /** Converting to hex changes nothing, so it is idempotent. */
  lemma ConvertToHexIsIdentity(color: string, alpha: Option<string>, alpha': Option<string>)
    ensures ConvertColor(color, Hex, alpha) == color
    ensures ConvertColor(ConvertColor(color, Hex, alpha), Hex, alpha') == ConvertColor(color, Hex, alpha)
  {
  }

  /** A valid three-digit "#rgb" is not expanded: rgb and hsl leave it as is. */
  lemma ShortHexUnconverted(color: string, alpha: Option<string>)
    requires IsValidHexColor(color) && |color| == 4
    ensures ConvertColor(color, RgbFormat, alpha) == color
    ensures ConvertColor(color, HslFormat, alpha) == color
  {
  }

  /** A valid six-digit "#rrggbb" is always converted by rgb and hsl. */
  lemma LongHexConverted(color: string, alpha: Option<string>)
    requires IsValidHexColor(color) && |color| == 7
    ensures ConvertColor(color, RgbFormat, alpha) != color
    ensures ConvertColor(color, HslFormat, alpha) != color
  {
    assert StartsWith(color, "#") by {
      assert color[..1] == "#";
    }
    assert SixHex(color).Some?;
    HexToRgbChangesExactlyMatches(color, alpha);
    HexToHslChangesExactlyMatches(color, alpha);
  }

  /** Every converted rgb text is left alone by a second conversion: it does
      not start with "#". */
  lemma ConvertRgbTwice(color: string, alpha: Option<string>)
    ensures var once := ConvertColor(color, RgbFormat, alpha);
      ConvertColor(once, RgbFormat, alpha) == once
  {
    var once := ConvertColor(color, RgbFormat, alpha);
    if color != [] && StartsWith(color, "#") && SixHex(color).Some? {
      assert once[0] == 'r';
    }
  }
}
