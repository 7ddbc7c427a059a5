/** PHP's `base_convert` and numeric-string reading, over exact naturals.
    `base_convert($s, $from, $to)` reads the digits of `s` that are valid in
    base `from` (either letter case), silently skipping every other character,
    and writes the value in base `to` with lower-case letters and no leading
    zeros ("0" for zero). */
module BaseConvert {
  import opened Positional
  import opened PhpStrings

  /** Value of an alphanumeric character as a digit; 36 for anything else. */
  function DigitValue(c: char): (v: nat)
    ensures v <= 36
  {
    if '0' <= c <= '9' then (c as int) - ('0' as int)
    else if 'a' <= c <= 'z' then (c as int) - ('a' as int) + 10
    else if 'A' <= c <= 'Z' then (c as int) - ('A' as int) + 10
    else 36
  }

  /** The characters `base_convert` writes: decimal digits and lower-case letters. */
  predicate IsLowerDigit(c: char) {
    '0' <= c <= '9' || 'a' <= c <= 'z'
  }

  /** The lower-case character written for digit `d`. */
  function DigitChar(d: nat): (c: char)
    requires d < 36
    ensures DigitValue(c) == d && IsLowerDigit(c)
  {
    if d < 10 then ((d + '0' as int) as char) else ((d - 10 + 'a' as int) as char)
  }

  /** The digit values of `s` that are valid in base `b`, in order. */
  function DigitValues(s: string, b: nat): (ds: seq<nat>)
    ensures AllBelow(ds, b) && |ds| <= |s|
  {
    if |s| == 0 then [] else DigitValuesOf(s[0], b) + DigitValues(s[1..], b)
  }

  /** The digit value of `c` if it is valid in base `b`, else nothing. */
  function DigitValuesOf(c: char, b: nat): (ds: seq<nat>)
    ensures AllBelow(ds, b)
  {
    if DigitValue(c) < b then [DigitValue(c)] else []
  }

  /** The value `base_convert` reads from `s` in base `b`: at most one digit
      per character, so it is below b^|s|. */
  function ParseBase(s: string, b: nat): (v: nat)
    ensures b >= 1 ==> v < Pow(b, |s|)
  {
    EvalWithin(DigitValues(s, b), b, |s|);
    Eval(DigitValues(s, b), b)
  }

  /** `s` is made only of lower-case digits of base `b` (what `ToBase` writes). */
  predicate IsLowerDigits(s: string, b: nat) {
    forall i :: 0 <= i < |s| ==> IsLowerDigit(s[i]) && DigitValue(s[i]) < b
  }

  lemma DigitCharOfValue(c: char)
    requires IsLowerDigit(c)
    ensures DigitValue(c) < 36 && DigitChar(DigitValue(c)) == c
  {
  }

  /** The digits `base_convert` writes for `n` in base `b`: no leading zero,
      except for zero itself. */
  function ToBase(n: nat, b: nat): (s: string)
    requires 2 <= b <= 36
    ensures |s| >= 1 && IsLowerDigits(s, b)
    ensures s[0] == '0' <==> n == 0
    decreases n
  {
    if n < b then [DigitChar(n)]
    else
      QuotientShrinks(n, b);
      ToBase(n / b, b) + [DigitChar(n % b)]
  }

  lemma QuotientShrinks(n: nat, b: nat)
    requires 2 <= b <= n
    ensures n / b < n
  {
    DivMod(n, b);
    MulMonotone(2, b, n / b);
  }

  /** The `w` lowest digits of `n` in base `b`, zeros included. */
  function ToBaseWidth(n: nat, b: nat, w: nat): (s: string)
    requires 2 <= b <= 36
    ensures |s| == w && IsLowerDigits(s, b)
  {
    if w == 0 then [] else ToBaseWidth(n / b, b, w - 1) + [DigitChar(n % b)]
  }

  /** `str_pad(base_convert(...), 4, '0', STR_PAD_LEFT)`: at least four
      lower-case hex digits. */
  function Hex4(n: nat): (r: string)
    ensures |r| >= 4 && IsLowerDigits(r, 16)
  {
    assert IsLowerDigit('0') && DigitValue('0') == 0;
    PadLeft(ToBase(n, 16), 4, '0')
  }

  /** PHP's `is_numeric`, restricted to plain decimal numerals: a string is
      numeric exactly when it is not empty and is the decimal writing of the
      value `base_convert` reads from it, padded with zeros to its own length. */
  predicate IsNumeric(s: string)
    ensures IsNumeric(s) <==> |s| >= 1 && ToBaseWidth(ParseBase(s, 10), 10, |s|) == s
  {
    DecimalNumeral(s);
    |s| > 0 && forall i :: 0 <= i < |s| ==> '0' <= s[i] <= '9'
  }

  /** Decimal digits are exactly the strings that reading in base 10 and
      writing back at the same width reproduces. */
  lemma DecimalNumeral(s: string)
    ensures (forall i :: 0 <= i < |s| ==> '0' <= s[i] <= '9')
        <==> ToBaseWidth(ParseBase(s, 10), 10, |s|) == s
  {
    if forall i :: 0 <= i < |s| ==> '0' <= s[i] <= '9' {
      assert IsLowerDigits(s, 10);
      ToBaseWidthOfParse(s, 10);
    }
  }

  /** The number a decimal numeral stands for. A numeral is the decimal
      writing of its value, padded with zeros to its own length. */
  function NumericValue(s: string): (n: nat)
    ensures IsNumeric(s) ==> ToBaseWidth(n, 10, |s|) == s
  {
    ParseBase(s, 10)
  }

  lemma {:induction false} DigitValuesConcat(s: string, t: string, b: nat)
    ensures DigitValues(s + t, b) == DigitValues(s, b) + DigitValues(t, b)
  {
    if s == [] {
      assert s + t == t;
    } else {
      var head := DigitValuesOf(s[0], b);
      assert (s + t)[0] == s[0] && (s + t)[1..] == s[1..] + t;
      assert DigitValues(s + t, b) == head + DigitValues(s[1..] + t, b);
      DigitValuesConcat(s[1..], t, b);
    }
  }

  /** Every character of a lower-case numeral is read as a digit. */
  lemma {:induction false} DigitValuesOfLower(s: string, b: nat)
    requires IsLowerDigits(s, b)
    ensures |DigitValues(s, b)| == |s|
    ensures forall i :: 0 <= i < |s| ==> DigitValues(s, b)[i] == DigitValue(s[i])
  {
    if s != [] {
      assert IsLowerDigits(s[1..], b);
      DigitValuesOfLower(s[1..], b);
    }
  }

  /** Reading a numeral extended by one digit on the right. */
  lemma ParseAppend(s: string, c: char, b: nat)
    requires DigitValue(c) < b
    ensures ParseBase(s + [c], b) == ParseBase(s, b) * b + DigitValue(c)
  {
    DigitValuesConcat(s, [c], b);
    EvalAppend(DigitValues(s, b), DigitValue(c), b);
  }

  /** Reading a numeral whose right part is made of valid digits. */
  lemma ParseConcat(s: string, t: string, b: nat)
    requires IsLowerDigits(t, b)
    ensures ParseBase(s + t, b) == ParseBase(s, b) * Pow(b, |t|) + ParseBase(t, b)
  {
    DigitValuesConcat(s, t, b);
    DigitValuesOfLower(t, b);
    EvalConcat(DigitValues(s, b), DigitValues(t, b), b);
  }

  /** A numeral of `|t|` digits is below `b^|t|`. */
  /** The first `k` digits of a numeral are worth the numeral shifted right
      by the other `n` digits. */
  lemma ParsePrefix(s: string, k: nat, n: nat, b: nat)
    requires b >= 2 && IsLowerDigits(s, b) && k <= |s| && n == |s| - k
    ensures ParseBase(s[..k], b) == ParseBase(s, b) / Pow(b, n)
  {
    var kept, low := s[..k], s[k..];
    assert s == kept + low;
    assert IsLowerDigits(low, b);
    ParseConcat(kept, low, b);
    ParseBound(low, b);
    DivModUnique(ParseBase(s, b), Pow(b, |low|), ParseBase(kept, b), ParseBase(low, b));
  }

  lemma ParseBound(t: string, b: nat)
    requires IsLowerDigits(t, b)
    ensures ParseBase(t, b) < Pow(b, |t|)
  {
    DigitValuesOfLower(t, b);
    EvalBound(DigitValues(t, b), b);
  }

  /** Leading zeros do not change the value read. */
  lemma ParseLeadingZeros(s: string, k: nat, b: nat)
    requires 1 <= b <= 36
    ensures ParseBase(Repeat('0', k) + s, b) == ParseBase(s, b)
  {
    var zeros := Repeat('0', k);
    DigitValuesConcat(zeros, s, b);
    ZeroDigitValues(k, b);
    EvalConcat(Repeat<nat>(0, k), DigitValues(s, b), b);
    EvalZeros(k, b);
  }

  lemma {:induction false} ZeroDigitValues(k: nat, b: nat)
    requires 1 <= b
    ensures DigitValues(Repeat('0', k), b) == Repeat<nat>(0, k)
  {
    if k > 0 {
      ZeroDigitValues(k - 1, b);
      assert Repeat('0', k)[1..] == Repeat('0', k - 1);
    }
  }

  /** Writing then reading gives the number back. */
  lemma {:induction false} ParseToBase(n: nat, b: nat)
    requires 2 <= b <= 36
    ensures ParseBase(ToBase(n, b), b) == n
    decreases n
  {
    if n < b {
      assert [DigitChar(n)] == [] + [DigitChar(n)];
      ParseAppend([], DigitChar(n), b);
    } else {
      ParseToBase(n / b, b);
      ParseStep(ToBase(n / b, b), b, n);
    }
  }

  lemma DivMod(n: nat, b: nat)
    requires b > 0
    ensures (n / b) * b + n % b == n
  {
  }

  /** Fixed-width writing then reading gives the number back when it fits. */
  lemma {:induction false} ParseToBaseWidth(n: nat, b: nat, w: nat)
    requires 2 <= b <= 36 && n < Pow(b, w)
    ensures ParseBase(ToBaseWidth(n, b, w), b) == n
    decreases w
  {
    if w > 0 {
      DivBelowPow(n, b, w);
      ParseToBaseWidth(n / b, b, w - 1);
      ParseStep(ToBaseWidth(n / b, b, w - 1), b, n);
    }
  }

  /** Reading the numeral of `n / b` followed by the digit `n % b` gives `n`. */
  lemma ParseStep(x: string, b: nat, n: nat)
    requires 2 <= b <= 36 && ParseBase(x, b) == n / b
    ensures ParseBase(x + [DigitChar(n % b)], b) == n
  {
    ParseAppend(x, DigitChar(n % b), b);
    DivMod(n, b);
  }

  lemma DivBelowPow(n: nat, b: nat, w: nat)
    requires b >= 1 && w >= 1 && n < Pow(b, w)
    ensures 0 <= n / b < Pow(b, w - 1)
  {
    var p := Pow(b, w - 1);
    assert n < p * b;
    DivMod(n, b);
    MulMonotone(p, n / b, b);
  }

  lemma MulMonotone(x: nat, y: nat, c: nat)
    ensures x <= y ==> x * c <= y * c
  {
  }

  /** Zero written at a fixed width is all zeros. */
  lemma {:induction false} ToBaseWidthZero(b: nat, w: nat)
    requires 2 <= b <= 36
    ensures ToBaseWidth(0, b, w) == Repeat('0', w)
  {
    if w > 0 {
      ToBaseWidthZero(b, w - 1);
      assert Repeat('0', w) == Repeat('0', w - 1) + ['0'];
    }
  }

  /** Left-padding `base_convert`'s output with zeros to a width it fits in
      gives the fixed-width numeral. */
  lemma {:induction false} PadToBase(n: nat, b: nat, w: nat)
    requires 2 <= b <= 36 && 1 <= w && n < Pow(b, w)
    ensures PadLeft(ToBase(n, b), w, '0') == ToBaseWidth(n, b, w)
    decreases w
  {
    DivBelowPow(n, b, w);
    if n < b {
      DivModUnique(n, b, 0, n);
      ToBaseWidthZero(b, w - 1);
      assert ToBaseWidth(n, b, w) == Repeat('0', w - 1) + [DigitChar(n)];
      assert PadLeft(ToBase(n, b), w, '0') == Repeat('0', w - 1) + [DigitChar(n)];
    } else {
      var q, d := n / b, DigitChar(n % b);
      var x := ToBase(q, b);
      assert ToBase(n, b) == x + [d];
      assert ToBaseWidth(n, b, w) == ToBaseWidth(q, b, w - 1) + [d];
      PadToBase(q, b, w - 1);
      PadLeftAppend(x, d, w);
    }
  }

  lemma PadLeftAppend(x: string, d: char, w: nat)
    requires 1 <= w && |x| <= w - 1
    ensures PadLeft(x + [d], w, '0') == PadLeft(x, w - 1, '0') + [d]
  {
  }

  /** Reading then writing at the same width gives a lower-case numeral back. */
  lemma {:induction false} ToBaseWidthOfParse(s: string, b: nat)
    requires 2 <= b <= 36 && IsLowerDigits(s, b)
    ensures ToBaseWidth(ParseBase(s, b), b, |s|) == s
    decreases |s|
  {
    if s != [] {
      var init, c := s[..|s| - 1], s[|s| - 1];
      assert s == init + [c];
      assert IsLowerDigits(init, b);
      DigitCharOfValue(c);
      ParseAppend(init, c, b);
      DivModUnique(ParseBase(s, b), b, ParseBase(init, b), DigitValue(c));
      ToBaseWidthOfParse(init, b);
    }
  }

  /** A 16-bit value written as a group is four lower-case hex digits worth the value. */
  lemma Hex4RoundTrip(n: nat)
    requires n < 0x1_0000
    ensures |Hex4(n)| == 4 && IsLowerDigits(Hex4(n), 16)
    ensures ParseBase(Hex4(n), 16) == n
  {
    assert Pow(16, 4) == 0x1_0000;
    PadToBase(n, 16, 4);
    ParseToBaseWidth(n, 16, 4);
  }

  /** Four lower-case hex digits read and written again are unchanged. */
  lemma Hex4OfParse(h: string)
    requires |h| == 4 && IsLowerDigits(h, 16)
    ensures ParseBase(h, 16) < 0x1_0000
    ensures Hex4(ParseBase(h, 16)) == h
  {
    assert Pow(16, 4) == 0x1_0000;
    ParseBound(h, 16);
    PadToBase(ParseBase(h, 16), 16, 4);
    ToBaseWidthOfParse(h, 16);
  }

  // ---------------------------------------------------------------------------
  // number_format

  /** `number_format($n, 0)` for a whole number: its decimal digits with a
      comma before every group of three counted from the right. Read back
      (commas are not digits) it gives `n`. */
  function NumberFormat(n: nat): (r: string)
    ensures ParseBase(r, 10) == n
  {
    ParseToBase(n, 10);
    Thousands(ToBase(n, 10))
  }

  /** The digits `ds` with a comma before each group of three from the
      right; inserting the commas does not change the digits read. */
  function Thousands(ds: string): (r: string)
    ensures DigitValues(r, 10) == DigitValues(ds, 10)
    decreases |ds|
  {
    if |ds| <= 3 then ds
    else
      var hi, lo := ds[..|ds| - 3], ds[|ds| - 3..];
      assert hi + lo == ds;
      CommaStep(Thousands(hi), hi, lo);
      Thousands(hi) + "," + lo
  }

  /** A comma put before the last digits keeps the digits read. */
  lemma CommaStep(grouped: string, hi: string, lo: string)
    requires DigitValues(grouped, 10) == DigitValues(hi, 10)
    ensures DigitValues(grouped + "," + lo, 10) == DigitValues(hi + lo, 10)
  {
    CommaHasNoDigit(grouped, lo);
    DigitValuesConcat(hi, lo, 10);
  }

  /** A comma contributes no decimal digit. */
  lemma CommaHasNoDigit(left: string, right: string)
    ensures DigitValues(left + "," + right, 10) == DigitValues(left, 10) + DigitValues(right, 10)
  {
    DigitValuesConcat(left + ",", right, 10);
    DigitValuesConcat(left, ",", 10);
    assert DigitValues(",", 10) == [] by {
      assert DigitValuesOf(',', 10) == [];
    }
    assert DigitValues(left, 10) + [] == DigitValues(left, 10);
  }

  /** The comma-separated groups of a decimal numeral: a first group of one
      to three digits that starts like the numeral, then groups of exactly
      three digits. */
  lemma {:induction false} ThousandsGroups(ds: string)
    requires |ds| >= 1 && IsLowerDigits(ds, 10)
    ensures var groups := Split(Thousands(ds), ',');
      && 1 <= |groups[0]| <= 3 && groups[0][0] == ds[0]
      && (forall i :: 1 <= i < |groups| ==> |groups[i]| == 3)
      && (forall i :: 0 <= i < |groups| ==> IsLowerDigits(groups[i], 10))
      && |groups| == (|ds| + 2) / 3
    decreases |ds|
  {
    if |ds| <= 3 {
      NoCommaInDigits(ds);
      SplitWhole(ds, ',');
    } else {
      var hi, lo := ds[..|ds| - 3], ds[|ds| - 3..];
      assert IsLowerDigits(hi, 10) by {
        assert forall i :: 0 <= i < |hi| ==> hi[i] == ds[i];
      }
      assert IsLowerDigits(lo, 10) by {
        assert forall i :: 0 <= i < |lo| ==> lo[i] == ds[|ds| - 3 + i];
      }
      NoCommaInDigits(lo);
      ThousandsGroups(hi);
      SplitAtSeparator(Thousands(hi), lo, ',');
      SplitWhole(lo, ',');
      assert Thousands(ds) == Thousands(hi) + [','] + lo;
      assert hi[0] == ds[0];
      GroupsAppend(Split(Thousands(hi), ','), lo, |hi|);
    }
  }

  /** A group of three digits appended after well-formed groups. */
  lemma GroupsAppend(groups: seq<string>, lo: string, n: nat)
    requires |groups| >= 1 && 1 <= |groups[0]| <= 3 && |groups| == (n + 2) / 3
    requires forall i :: 1 <= i < |groups| ==> |groups[i]| == 3
    requires forall i :: 0 <= i < |groups| ==> IsLowerDigits(groups[i], 10)
    requires |lo| == 3 && IsLowerDigits(lo, 10)
    ensures (groups + [lo])[0] == groups[0]
    ensures forall i :: 1 <= i < |groups + [lo]| ==> |(groups + [lo])[i]| == 3
    ensures forall i :: 0 <= i < |groups + [lo]| ==> IsLowerDigits((groups + [lo])[i], 10)
    ensures |groups + [lo]| == (n + 3 + 2) / 3
  {
  }

  lemma NoCommaInDigits(ds: string)
    requires IsLowerDigits(ds, 10)
    ensures ',' !in ds
  {
    forall i | 0 <= i < |ds| ensures ds[i] != ',' {
      assert IsLowerDigit(ds[i]);
    }
  }

  /** The hosts text for a number: decimal digits grouped by three from the
      right, the first group one to three digits long and without a leading
      zero unless the number is zero. */
  lemma NumberFormatGroups(n: nat)
    ensures var groups := Split(NumberFormat(n), ',');
      && 1 <= |groups[0]| <= 3
      && (forall i :: 1 <= i < |groups| ==> |groups[i]| == 3)
      && (forall i :: 0 <= i < |groups| ==> IsLowerDigits(groups[i], 10))
      && (groups[0][0] == '0' <==> n == 0)
  {
    ThousandsGroups(ToBase(n, 10));
  }
}
