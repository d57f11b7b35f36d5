/** The right-to-left currency mask of the MoneyField component: `formatValue`
    turns the field's amount into `<grouped integer><decimal separator><cents>`,
    and `handleChange` turns typed text back into an amount by keeping its digits
    as a count of cents. Amounts are counted in cents, so the floating-point
    steps of the source (`toFixed(2)`, the division by 100) are exact here. */
module Money {
  import opened Text

  /** What `Number(String(value))` yields for the field's value: NaN (the
      value is `undefined`) or an amount with cent precision. */
  datatype Amount = NotANumber | Cents(cents: int)

  function Magnitude(c: int): nat { if c < 0 then -c else c }

  /** The number of cents an amount is displayed as: its magnitude, and 0
      for NaN. */
  function CentsOf(a: Amount): nat
  {
    if a.Cents? then Magnitude(a.cents) else 0
  }

  function TwoDigits(n: nat): (r: string)
    requires n < 100
    ensures |r| == 2 && AllDigits(r)
  {
    [DigitChar(n / 10), DigitChar(n % 10)]
  }

  /** `Number(value).toFixed(2)`: "NaN", or an optional '-', the integer part,
      '.', and two decimals. */
  function FixedText(a: Amount): string
  {
    match a
    case NotANumber => "NaN"
    case Cents(c) => (if c < 0 then "-" else "") + UnsignedFixed(Magnitude(c))
  }

  /** `toFixed(2)` of m cents, m not negative: the whole units, '.', and the
      two decimals. */
  function UnsignedFixed(m: nat): string
  {
    NatText(m / 100) + "." + TwoDigits(m % 100)
  }

  /** `s.padStart(width, fill)` */
  function PadStart(s: string, width: nat, fill: char): (r: string)
    ensures |r| >= width && |r| >= |s|
  {
    if |s| >= width then s else seq(width - |s|, _ => fill) + s
  }

  /** `integer.replace(/\B(?=(\d{3})+(?!\d))/g, sep)` on a digit string: `sep`
      goes before every inner position followed by a multiple of three digits. */
  function Group(digits: string, sep: string): string
  {
    if |digits| <= 3 then digits
    else Group(digits[..|digits| - 3], sep) + sep + digits[|digits| - 3..]
  }

  /** The digit string after the two `replace` calls: no sign, no point, no
      leading zero. */
  function MaskDigits(a: Amount): string
  {
    StripLeadingZeros(OnlyDigits(FixedText(a)))
  }

  /** `onlyNumbers.padStart(3, "0")` */
  function Padded(a: Amount): (r: string)
    ensures |r| >= 3
  {
    PadStart(MaskDigits(a), 3, '0')
  }

  /** `leftZeros.slice(0, -2)`: the whole units. */
  function IntegerPart(leftZeros: string): string
    requires |leftZeros| >= 2
  {
    leftZeros[..|leftZeros| - 2]
  }

  /** `leftZeros.slice(-2)`: the cents. */
  function CentsPart(leftZeros: string): string
    requires |leftZeros| >= 2
  {
    leftZeros[|leftZeros| - 2..]
  }

  /** The returned template: grouped integer part, decimal separator, cents. */
  function Layout(leftZeros: string, decimalSep: string, thousandSep: string): string
    requires |leftZeros| >= 2
  {
    Group(IntegerPart(leftZeros), thousandSep) + decimalSep + CentsPart(leftZeros)
  }

  /** `formatValue(String(value))` with the given separators. */
  function FormatValue(a: Amount, decimalSep: string, thousandSep: string): string
  {
    Layout(Padded(a), decimalSep, thousandSep)
  }

  /** `handleChange`: the amount handed to `onChange`, in cents
      (`Number(onlyNumbers) / 100` in the source). */
  function InputCents(text: string): nat
  {
    DigitsValue(StripLeadingZeros(OnlyDigits(text)))
  }

  // ------------------------------------------------------------- digits

  lemma TwoDigitsValue(n: nat)
    requires n < 100
    ensures DigitsValue(TwoDigits(n)) == n
  {
    var f := TwoDigits(n);
    var hi := [DigitChar(n / 10)];
    assert f[..1] == hi && hi[..0] == [];
    assert DigitsValue(hi) == n / 10;
    assert DigitsValue(f) == 10 * (n / 10) + n % 10;
  }

  /** The digits `toFixed(2)` writes are those of the magnitude in cents. */
  lemma FixedTextDigits(c: int)
    ensures DigitsValue(OnlyDigits(FixedText(Cents(c)))) == Magnitude(c)
  {
    var m := Magnitude(c);
    var i, f := NatText(m / 100), TwoDigits(m % 100);
    FixedTextOnlyDigits(c);
    UnsignedDigits(m);
    calc {
      DigitsValue(i + f);
    == { DigitsValueAppend(i, f); assert Pow10(2) == 100; }
      DigitsValue(i) * 100 + DigitsValue(f);
    == { NatTextValue(m / 100); TwoDigitsValue(m % 100); }
      (m / 100) * 100 + m % 100;
    }
  }

  /** The '-' `toFixed` may write is not a digit. */
  lemma FixedTextOnlyDigits(c: int)
    ensures OnlyDigits(FixedText(Cents(c))) == OnlyDigits(UnsignedFixed(Magnitude(c)))
  {
    var t := UnsignedFixed(Magnitude(c));
    if c < 0 {
      calc {
        OnlyDigits(FixedText(Cents(c)));
        OnlyDigits("-" + t);
      == { OnlyDigitsAppend("-", t); }
        OnlyDigits("-") + OnlyDigits(t);
      == { OnlyDigitsOfNonDigits("-"); }
        OnlyDigits(t);
      }
    } else {
      assert FixedText(Cents(c)) == t;
    }
  }

  /** Without the point, the unsigned text is the units followed by the two
      decimals. */
  lemma UnsignedDigits(m: nat)
    ensures OnlyDigits(UnsignedFixed(m)) == NatText(m / 100) + TwoDigits(m % 100)
  {
    var i, f := NatText(m / 100), TwoDigits(m % 100);
    calc {
      OnlyDigits(i + "." + f);
    == { OnlyDigitsAppend(i + ".", f); OnlyDigitsAppend(i, "."); }
      OnlyDigits(i) + OnlyDigits(".") + OnlyDigits(f);
    == { OnlyDigitsOfDigits(i); OnlyDigitsOfNonDigits("."); OnlyDigitsOfDigits(f); }
      i + [] + f;
    }
  }

  /** `MaskDigits` is the canonical decimal text of the magnitude in cents,
      empty for zero; for NaN it is empty too. */
  lemma MaskDigitsValue(a: Amount)
    ensures AllDigits(MaskDigits(a))
    ensures MaskDigits(a) == [] || MaskDigits(a)[0] != '0'
    ensures DigitsValue(MaskDigits(a)) == CentsOf(a)
  {
    match a
    case NotANumber =>
      assert OnlyDigits("NaN") == [] by { OnlyDigitsOfNonDigits("NaN"); }
    case Cents(c) =>
      FixedTextDigits(c);
      LeadingZerosAddNothing(OnlyDigits(FixedText(a)));
  }

  lemma PaddedValue(a: Amount)
    ensures AllDigits(Padded(a))
    ensures DigitsValue(Padded(a)) == CentsOf(a)
    ensures |Padded(a)| > 3 ==> Padded(a)[0] != '0'
  {
    MaskDigitsValue(a);
    PadZerosValue(MaskDigits(a));
  }

  /** Padding a canonical digit string with zeros to three places keeps its
      value, and a string longer than three places was not padded. */
  lemma PadZerosValue(s: string)
    requires AllDigits(s) && (s == [] || s[0] != '0')
    ensures AllDigits(PadStart(s, 3, '0'))
    ensures DigitsValue(PadStart(s, 3, '0')) == DigitsValue(s)
    ensures |PadStart(s, 3, '0')| > 3 ==> PadStart(s, 3, '0')[0] != '0'
  {
    if |s| < 3 {
      var z := seq(3 - |s|, _ => '0');
      assert PadStart(s, 3, '0') == z + s;
      assert AllDigits(z);
      AllDigitsAppend(z, s);
      ZerosValue(z);
      DigitsValueAppend(z, s);
    }
  }

  /** The two parts `formatValue` joins: the integer part is the whole units,
      written with at least one digit and without a leading zero (a lone "0"
      below one unit); the cents part is exactly two digits. */
  lemma FormatParts(a: Amount)
    ensures var p := Padded(a);
      && AllDigits(IntegerPart(p)) && |IntegerPart(p)| >= 1
      && (IntegerPart(p)[0] != '0' || IntegerPart(p) == "0")
      && AllDigits(CentsPart(p)) && |CentsPart(p)| == 2
      && DigitsValue(IntegerPart(p)) == CentsOf(a) / 100 && DigitsValue(CentsPart(p)) == CentsOf(a) % 100
  {
    var p := Padded(a);
    assert AllDigits(p) && |p| >= 3 && (|p| > 3 ==> p[0] != '0')
      && DigitsValue(p) == CentsOf(a) by {
      PaddedValue(a);
    }
    SplitCents(p);
  }

  /** Splitting a padded digit string two places from its end. */
  lemma SplitCents(p: string)
    requires AllDigits(p) && |p| >= 3 && (|p| > 3 ==> p[0] != '0')
    ensures var i, f := IntegerPart(p), CentsPart(p);
      && AllDigits(i) && |i| >= 1 && (i[0] != '0' || i == "0")
      && AllDigits(f) && |f| == 2
      && DigitsValue(i) == DigitsValue(p) / 100 && DigitsValue(f) == DigitsValue(p) % 100
  {
    var i, f := IntegerPart(p), CentsPart(p);
    assert p == i + f;
    DigitsValueAppend(i, f);
    assert Pow10(2) == 100;
    var hi := [f[0]];
    assert f[..1] == hi && hi[..0] == [];
    assert DigitsValue(hi) == DigitValue(f[0]) < 10;
    assert DigitsValue(f) == 10 * DigitsValue(hi) + DigitValue(f[1]);
    if |i| == 1 && i[0] == '0' {
      assert i == "0";
    }
  }

  // ----------------------------------------------------------- grouping

  /** The groups the thousand separator delimits, left to right. */
  function Chunks(digits: string): (r: seq<string>)
    ensures |r| >= 1
  {
    if |digits| <= 3 then [digits] else Chunks(digits[..|digits| - 3]) + [digits[|digits| - 3..]]
  }

  function Concat(chunks: seq<string>): string
  {
    if chunks == [] then [] else Concat(chunks[..|chunks| - 1]) + chunks[|chunks| - 1]
  }

  function JoinWith(chunks: seq<string>, sep: string): string
    requires |chunks| >= 1
  {
    if |chunks| == 1 then chunks[0] else JoinWith(chunks[..|chunks| - 1], sep) + sep + chunks[|chunks| - 1]
  }

  /** Grouping puts the separator between the groups; the first group has
      one to three digits and every later group exactly three; the groups
      together are the digits, in order. */
  lemma GroupShape(digits: string, sep: string)
    requires |digits| >= 1
    ensures Group(digits, sep) == JoinWith(Chunks(digits), sep)
    ensures Concat(Chunks(digits)) == digits
    ensures 1 <= |Chunks(digits)[0]| <= 3
    ensures forall k :: 1 <= k < |Chunks(digits)| ==> |Chunks(digits)[k]| == 3
  {
    GroupIsJoin(digits, sep);
    ChunksConcat(digits);
    ChunkSizes(digits);
  }

  lemma {:induction false} GroupIsJoin(digits: string, sep: string)
    ensures Group(digits, sep) == JoinWith(Chunks(digits), sep)
  {
    if |digits| > 3 {
      var head := digits[..|digits| - 3];
      GroupIsJoin(head, sep);
      var cs := Chunks(digits);
      assert cs == Chunks(head) + [digits[|digits| - 3..]];
      assert cs[..|cs| - 1] == Chunks(head);
    }
  }

  lemma {:induction false} ChunksConcat(digits: string)
    ensures Concat(Chunks(digits)) == digits
  {
    if |digits| <= 3 {
      assert Concat([digits]) == Concat([]) + digits;
    } else {
      var head, last := digits[..|digits| - 3], digits[|digits| - 3..];
      ChunksConcat(head);
      var cs := Chunks(digits);
      assert cs == Chunks(head) + [last];
      assert cs[..|cs| - 1] == Chunks(head);
      calc {
        Concat(cs);
        Concat(Chunks(head)) + last;
        head + last;
        { assert head + last == digits; }
        digits;
      }
    }
  }

  lemma {:induction false} ChunkSizes(digits: string)
    requires |digits| >= 1
    ensures 1 <= |Chunks(digits)[0]| <= 3
    ensures forall k :: 1 <= k < |Chunks(digits)| ==> |Chunks(digits)[k]| == 3
  {
    if |digits| > 3 {
      var head := digits[..|digits| - 3];
      ChunkSizes(head);
      assert Chunks(digits) == Chunks(head) + [digits[|digits| - 3..]];
    }
  }

  /** Removing a digit-free separator from the grouped integer part gives its
      digits back. */
  lemma {:induction false} GroupDigits(digits: string, sep: string)
    requires AllDigits(digits) && NoDigits(sep)
    ensures OnlyDigits(Group(digits, sep)) == digits
  {
    if |digits| <= 3 {
      OnlyDigitsOfDigits(digits);
    } else {
      var head, tail := digits[..|digits| - 3], digits[|digits| - 3..];
      var g := Group(head, sep);
      calc {
        OnlyDigits(Group(digits, sep));
        OnlyDigits(g + sep + tail);
      == { OnlyDigitsAppend(g + sep, tail); }
        OnlyDigits(g + sep) + OnlyDigits(tail);
      == { OnlyDigitsAppend(g, sep); }
        OnlyDigits(g) + OnlyDigits(sep) + OnlyDigits(tail);
      == { GroupDigits(head, sep); OnlyDigitsOfNonDigits(sep); OnlyDigitsOfDigits(tail); }
        head + [] + tail;
      == { assert head + tail == digits; }
        digits;
      }
    }
  }

  // ---------------------------------------------------- display properties

  /** The display always ends with the decimal separator and exactly two
      digits, after an integer part of at least one digit. */
  lemma DisplayEndsWithCents(a: Amount, decimalSep: string, thousandSep: string)
    ensures var r := FormatValue(a, decimalSep, thousandSep);
      |r| >= |decimalSep| + 3
      && r[|r| - 2 - |decimalSep|..|r| - 2] == decimalSep
      && AllDigits(r[|r| - 2..])
  {
    var p := Padded(a);
    assert AllDigits(p) by { PaddedValue(a); }
    assert FormatValue(a, decimalSep, thousandSep) == Layout(p, decimalSep, thousandSep);
    LayoutEnds(p, decimalSep, thousandSep);
  }

  lemma LayoutEnds(p: string, decimalSep: string, thousandSep: string)
    requires AllDigits(p) && |p| >= 3
    ensures var r := Layout(p, decimalSep, thousandSep);
      |r| >= |decimalSep| + 3
      && r[|r| - 2 - |decimalSep|..|r| - 2] == decimalSep
      && AllDigits(r[|r| - 2..])
  {
    var i, f := IntegerPart(p), CentsPart(p);
    var g := Group(i, thousandSep);
    assert |g| >= 1 by {
      GroupShape(i, thousandSep);
      JoinWithLength(Chunks(i), thousandSep);
    }
    var r := Layout(p, decimalSep, thousandSep);
    assert r == g + decimalSep + f;
    assert r[|r| - 2..] == f;
    assert r[|r| - 2 - |decimalSep|..|r| - 2] == decimalSep;
  }

  lemma {:induction false} JoinWithLength(chunks: seq<string>, sep: string)
    requires |chunks| >= 1
    ensures |JoinWith(chunks, sep)| >= |chunks[0]|
  {
    if |chunks| > 1 {
      JoinWithLength(chunks[..|chunks| - 1], sep);
    }
  }

  /** A negative amount is shown as its magnitude: `toFixed`'s '-' is a
      non-digit and is stripped. */
  lemma NegativeShowsMagnitude(c: int, decimalSep: string, thousandSep: string)
    ensures FormatValue(Cents(-c), decimalSep, thousandSep) == FormatValue(Cents(c), decimalSep, thousandSep)
  {
    SameMaskForNegation(c);
    assert Padded(Cents(-c)) == Padded(Cents(c));
  }

  lemma SameMaskForNegation(c: int)
    ensures MaskDigits(Cents(-c)) == MaskDigits(Cents(c))
  {
    assert Magnitude(-c) == Magnitude(c);
    FixedTextOnlyDigits(-c);
    FixedTextOnlyDigits(c);
    SameDigitsSameMask(Cents(-c), Cents(c));
  }

  lemma SameDigitsSameMask(a: Amount, b: Amount)
    requires OnlyDigits(FixedText(a)) == OnlyDigits(FixedText(b))
    ensures MaskDigits(a) == MaskDigits(b)
  {
  }

  /** An undefined value shows "0" + separator + "00", as zero does, not an
      empty text. */
  lemma UndefinedShowsZero(decimalSep: string, thousandSep: string)
    ensures FormatValue(NotANumber, decimalSep, thousandSep) == "0" + decimalSep + "00"
    ensures FormatValue(Cents(0), decimalSep, thousandSep) == "0" + decimalSep + "00"
  {
    calc {
      FormatValue(NotANumber, decimalSep, thousandSep);
    == { ZeroPadded(); }
      Layout("000", decimalSep, thousandSep);
    == { LayoutZero(decimalSep, thousandSep); }
      "0" + decimalSep + "00";
    }
    calc {
      FormatValue(Cents(0), decimalSep, thousandSep);
    == { ZeroPadded(); }
      Layout("000", decimalSep, thousandSep);
    == { LayoutZero(decimalSep, thousandSep); }
      "0" + decimalSep + "00";
    }
  }

  lemma LayoutZero(decimalSep: string, thousandSep: string)
    ensures Layout("000", decimalSep, thousandSep) == "0" + decimalSep + "00"
  {
    assert "0" + "00" == "000";
    LayoutOf("0", "00", decimalSep, thousandSep);
  }

  lemma ZeroPadded()
    ensures Padded(NotANumber) == "000" && Padded(Cents(0)) == "000"
  {
    ZeroMask();
    PadEmpty();
  }

  lemma PadEmpty()
    ensures PadStart("", 3, '0') == "000"
  {
    var r := PadStart("", 3, '0');
    assert |r| == 3 && r[0] == '0' && r[1] == '0' && r[2] == '0';
  }

  lemma ZeroMask()
    ensures MaskDigits(NotANumber) == "" && MaskDigits(Cents(0)) == ""
  {
    NaNMask();
    ZeroCentsMask();
  }

  lemma NaNMask()
    ensures MaskDigits(NotANumber) == ""
  {
    assert NoDigits("NaN");
    OnlyDigitsOfNonDigits("NaN");
  }

  lemma ZeroCentsMask()
    ensures MaskDigits(Cents(0)) == ""
  {
    ZeroFixedDigits();
    StripThreeZeros();
  }

  lemma ZeroFixedDigits()
    ensures OnlyDigits(FixedText(Cents(0))) == "000"
  {
    FixedTextOnlyDigits(0);
    UnsignedDigits(0);
    assert NatText(0) == "0";
    assert TwoDigits(0) == "00";
  }

  lemma StripThreeZeros()
    ensures StripLeadingZeros("000") == ""
  {
    var z := "000";
    assert z[1..] == "00" && z[1..][1..] == "0" && z[1..][1..][1..] == "";
  }

  /** Laying out `whole + cents` for two cents digits. */
  lemma LayoutOf(whole: string, cents: string, decimalSep: string, thousandSep: string)
    requires |cents| == 2
    ensures Layout(whole + cents, decimalSep, thousandSep) == Group(whole, thousandSep) + decimalSep + cents
  {
    var p := whole + cents;
    assert IntegerPart(p) == whole;
    assert CentsPart(p) == cents;
  }

  lemma GroupOf(head: string, last3: string, sep: string)
    requires |head| >= 1 && |last3| == 3
    ensures Group(head + last3, sep) == Group(head, sep) + sep + last3
  {
    var d := head + last3;
    assert d[..|d| - 3] == head;
    assert d[|d| - 3..] == last3;
  }

  /** With the default separators: 100.50 shows "100,50" and 10000 shows
      "10.000,00". */
  lemma DefaultSeparatorExamples()
    ensures FormatValue(Cents(10050), ",", ".") == "100,50"
    ensures FormatValue(Cents(1000000), ",", ".") == "10.000,00"
  {
    PaddedExamples();
    LayoutExamples();
  }

  lemma PaddedExamples()
    ensures Padded(Cents(10050)) == "10050"
    ensures Padded(Cents(1000000)) == "1000000"
  {
    FixedDigitsExamples();
    PaddedOfCanonical(Cents(10050), "10050");
    PaddedOfCanonical(Cents(1000000), "1000000");
  }

  /** Digits of three places or more without a leading zero are shown as
      they are. */
  lemma PaddedOfCanonical(a: Amount, d: string)
    requires OnlyDigits(FixedText(a)) == d && |d| >= 3 && d[0] != '0'
    ensures Padded(a) == d
  {
    assert StripLeadingZeros(d) == d;
  }

  lemma FixedDigitsExamples()
    ensures OnlyDigits(FixedText(Cents(10050))) == "10050"
    ensures OnlyDigits(FixedText(Cents(1000000))) == "1000000"
  {
    FixedDigitsOfCents();
    FixedDigitsOfThousands();
  }

  lemma FixedDigitsOfCents()
    ensures OnlyDigits(FixedText(Cents(10050))) == "10050"
  {
    FixedDigitsOf(10050, 100, 50);
    NatTextExamples();
    TwoDigitsExamples();
  }

  lemma FixedDigitsOfThousands()
    ensures OnlyDigits(FixedText(Cents(1000000))) == "1000000"
  {
    FixedDigitsOf(1000000, 10000, 0);
    NatTextExamples();
    TwoDigitsExamples();
  }

  lemma TwoDigitsExamples()
    ensures TwoDigits(50) == "50" && TwoDigits(0) == "00"
  {
  }

  /** The digits `toFixed(2)` writes for `units` whole units and `cents`. */
  lemma FixedDigitsOf(c: int, units: nat, cents: nat)
    requires cents < 100 && c == 100 * units + cents
    ensures OnlyDigits(FixedText(Cents(c))) == NatText(units) + TwoDigits(cents)
  {
    DivMod100(c, units, cents);
    FixedTextOnlyDigits(c);
    UnsignedDigits(c);
  }

  lemma DivMod100(c: int, units: nat, cents: nat)
    requires cents < 100 && c == 100 * units + cents
    ensures Magnitude(c) == c && c / 100 == units && c % 100 == cents
  {
  }

  lemma NatTextExamples()
    ensures NatText(100) == "100" && NatText(10000) == "10000"
  {
    assert NatText(1) == "1";
    assert NatText(10) == "10";
    assert NatText(100) == "100";
    assert NatText(1000) == "1000";
  }

  lemma LayoutExamples()
    ensures Layout("10050", ",", ".") == "100,50"
    ensures Layout("1000000", ",", ".") == "10.000,00"
  {
    LayoutOfCents();
    LayoutOfThousands();
  }

  lemma LayoutOfCents()
    ensures Layout("10050", ",", ".") == "100,50"
  {
    assert "10050" == "100" + "50";
    LayoutOf("100", "50", ",", ".");
    assert Group("100", ".") == "100";
  }

  lemma LayoutOfThousands()
    ensures Layout("1000000", ",", ".") == "10.000,00"
  {
    assert "1000000" == "10000" + "00";
    LayoutOf("10000", "00", ",", ".");
    assert "10000" == "10" + "000";
    GroupOf("10", "000", ".");
    assert Group("10", ".") == "10";
  }

  // ------------------------------------------------------------ input side

  /** Leading zeros do not change the amount; text without digits gives 0. */
  lemma InputIsDigitValue(text: string)
    ensures InputCents(text) == DigitsValue(OnlyDigits(text))
    ensures NoDigits(text) ==> InputCents(text) == 0
  {
    LeadingZerosAddNothing(OnlyDigits(text));
    if NoDigits(text) {
      OnlyDigitsOfNonDigits(text);
    }
  }

  /** One more digit typed at the end shifts the amount one place left. */
  lemma TypeDigit(text: string, d: char)
    requires IsDigit(d)
    ensures InputCents(text + [d]) == 10 * InputCents(text) + DigitValue(d)
  {
    OnlyDigitsAppend(text, [d]);
    assert OnlyDigits([d]) == [d];
    InputIsDigitValue(text);
    InputIsDigitValue(text + [d]);
    var o := OnlyDigits(text);
    assert (o + [d])[..|o|] == o;
  }

  /** A typed non-digit is ignored. */
  lemma TypeNonDigit(text: string, x: char)
    requires !IsDigit(x)
    ensures InputCents(text + [x]) == InputCents(text)
  {
    OnlyDigitsAppend(text, [x]);
    assert OnlyDigits([x]) == [];
    assert OnlyDigits(text) + [] == OnlyDigits(text);
  }

  /** Round trip: reading back the display of an amount gives its magnitude
      in cents, whatever digit-free separators are used; NaN reads back as 0. */
  lemma RoundTrip(a: Amount, decimalSep: string, thousandSep: string)
    requires NoDigits(decimalSep) && NoDigits(thousandSep)
    ensures InputCents(FormatValue(a, decimalSep, thousandSep))
         == CentsOf(a)
  {
    PaddedValue(a);
    LayoutDigits(Padded(a), decimalSep, thousandSep);
    LeadingZerosAddNothing(Padded(a));
  }

  /** The digits of a layout are the digit string it was laid out from. */
  lemma LayoutDigits(p: string, decimalSep: string, thousandSep: string)
    requires AllDigits(p) && |p| >= 2
    requires NoDigits(decimalSep) && NoDigits(thousandSep)
    ensures OnlyDigits(Layout(p, decimalSep, thousandSep)) == p
  {
    var i, f := IntegerPart(p), CentsPart(p);
    GroupDigits(i, thousandSep);
    var g := Group(i, thousandSep);
    OnlyDigitsAppend(g + decimalSep, f);
    OnlyDigitsAppend(g, decimalSep);
    OnlyDigitsOfNonDigits(decimalSep);
    OnlyDigitsOfDigits(f);
    assert i + f == p;
  }

  /** The right-to-left mask: typing digit `d` after the display of an
      amount emits ten times its cents plus `d`. */
  lemma KeystrokeShifts(a: Amount, d: char, decimalSep: string, thousandSep: string)
    requires IsDigit(d) && NoDigits(decimalSep) && NoDigits(thousandSep)
    ensures InputCents(FormatValue(a, decimalSep, thousandSep) + [d])
         == 10 * CentsOf(a) + DigitValue(d)
  {
    RoundTrip(a, decimalSep, thousandSep);
    TypeDigit(FormatValue(a, decimalSep, thousandSep), d);
  }

  /** Deleting the last character of the display of an amount emits a tenth
      of its cents: the mask shifts right. */
  lemma BackspaceShifts(a: Amount, decimalSep: string, thousandSep: string)
    requires NoDigits(decimalSep) && NoDigits(thousandSep)
    ensures var r := FormatValue(a, decimalSep, thousandSep);
      |r| >= 1 && InputCents(r[..|r| - 1]) == CentsOf(a) / 10
  {
    DisplayEndsInDigit(a, decimalSep, thousandSep);
    DropLastDigit(FormatValue(a, decimalSep, thousandSep));
  }

  /** The display ends in a digit and reads back as the amount's cents. */
  lemma DisplayEndsInDigit(a: Amount, decimalSep: string, thousandSep: string)
    requires NoDigits(decimalSep) && NoDigits(thousandSep)
    ensures var r := FormatValue(a, decimalSep, thousandSep);
      |r| >= 1 && IsDigit(r[|r| - 1]) && InputCents(r) == CentsOf(a)
  {
    var r := FormatValue(a, decimalSep, thousandSep);
    DisplayEndsWithCents(a, decimalSep, thousandSep);
    assert r[|r| - 1] == r[|r| - 2..][1];
    RoundTrip(a, decimalSep, thousandSep);
  }

  /** Dropping a final digit divides the amount read by ten. */
  lemma DropLastDigit(r: string)
    requires |r| >= 1 && IsDigit(r[|r| - 1])
    ensures InputCents(r[..|r| - 1]) == InputCents(r) / 10
  {
    var last := r[|r| - 1];
    assert r == r[..|r| - 1] + [last];
    TypeDigit(r[..|r| - 1], last);
  }
}
