/** Python's `'{:,}'.format(n)` for integers: decimal digits, a comma between every group
    of three counted from the right, and a leading '-' for negative numbers. */
module Grouping {

  function DigitChar(d: nat): char
    requires d < 10
  {
    "0123456789"[d]
  }

  predicate IsDigit(c: char)
  {
    '0' <= c <= '9'
  }

  /** Plain decimal digits of `n`, no leading zero. */
  function Digits(n: nat): (r: string)
    ensures 1 <= |r| && (n < 10 <==> |r| == 1)
    ensures n < 1000 ==> |r| <= 3
  {
    if n < 10 then [DigitChar(n)] else Digits(n / 10) + [DigitChar(n % 10)]
  }

  /** Exactly three digits, with leading zeros, for a group after a comma. */
  function Pad3(k: nat): string
    requires k < 1000
  {
    [DigitChar(k / 100), DigitChar(k / 10 % 10), DigitChar(k % 10)]
  }

  function GroupedNat(n: nat): string
  {
    if n < 1000 then Digits(n) else GroupedNat(n / 1000) + "," + Pad3(n % 1000)
  }

  /** `'{:,}'.format(n)`. */
  function Grouped(n: int): string
  {
    if n < 0 then "-" + GroupedNat(-n) else GroupedNat(n)
  }

  // ---------------------------------------------------------------------------
  // Reading a grouped number back

  /** The number written by a string of digits and commas, ignoring the commas. */
  function DigitsValue(s: string): nat
  {
    if s == [] then 0
    else if s[|s| - 1] == ',' then DigitsValue(s[..|s| - 1])
    else if IsDigit(s[|s| - 1]) then DigitsValue(s[..|s| - 1]) * 10 + (s[|s| - 1] - '0') as nat
    else DigitsValue(s[..|s| - 1]) * 10
  }

  /** The number a grouped string denotes. */
  function GroupedValue(s: string): int
  {
    if s != [] && s[0] == '-' then -(DigitsValue(s[1..]) as int) else DigitsValue(s)
  }

  lemma DigitCharValue(d: nat)
    requires d < 10
    ensures IsDigit(DigitChar(d)) && (DigitChar(d) - '0') as nat == d
  {
  }

  lemma {:induction false} DigitsRoundTrip(n: nat)
    ensures DigitsValue(Digits(n)) == n
  {
    DigitCharValue(n % 10);
    if n >= 10 {
      DigitsRoundTrip(n / 10);
      var r := Digits(n);
      assert r[..|r| - 1] == Digits(n / 10);
    }
  }

  /** Appending a digit shifts the value one place. */
  lemma DigitsValueDigit(s: string, d: nat)
    requires d < 10
    ensures DigitsValue(s + [DigitChar(d)]) == DigitsValue(s) * 10 + d
  {
    DigitCharValue(d);
    assert (s + [DigitChar(d)])[..|s|] == s;
  }

  /** Appending a comma changes nothing. */
  lemma DigitsValueComma(s: string)
    ensures DigitsValue(s + ",") == DigitsValue(s)
  {
    assert (s + ",")[..|s|] == s;
  }

  lemma Pad3RoundTrip(prefix: string, k: nat)
    requires k < 1000
    ensures DigitsValue(prefix + "," + Pad3(k)) == DigitsValue(prefix) * 1000 + k
  {
    var a, b, c := k / 100, k / 10 % 10, k % 10;
    var s0 := prefix + ",";
    var s1 := s0 + [DigitChar(a)];
    var s2 := s1 + [DigitChar(b)];
    var s3 := s2 + [DigitChar(c)];
    assert prefix + "," + Pad3(k) == s3;
    var v := DigitsValue(prefix);
    DigitsValueComma(prefix);
    DigitsValueDigit(s0, a);
    DigitsValueDigit(s1, b);
    DigitsValueDigit(s2, c);
    assert DigitsValue(s3) == ((v * 10 + a) * 10 + b) * 10 + c;
    assert ((v * 10 + a) * 10 + b) * 10 + c == v * 1000 + (a * 100 + b * 10 + c);
    Pad3Digits(k);
  }

  /** The three digits `Pad3` writes make up the number. */
  lemma Pad3Digits(k: nat)
    requires k < 1000
    ensures k == (k / 100) * 100 + (k / 10 % 10) * 10 + k % 10
  {
    assert k == (k / 10) * 10 + k % 10;
    assert k / 10 == (k / 10 / 10) * 10 + k / 10 % 10;
    assert k / 10 / 10 == k / 100;
  }

  lemma {:induction false} GroupedNatRoundTrip(n: nat)
    ensures DigitsValue(GroupedNat(n)) == n
    decreases n
  {
    if n < 1000 {
      DigitsRoundTrip(n);
    } else {
      GroupedNatRoundTrip(n / 1000);
      Pad3RoundTrip(GroupedNat(n / 1000), n % 1000);
    }
  }

  /** Reading the commas away gives back the number: grouping loses nothing. */
  lemma GroupedRoundTrip(n: int)
    ensures GroupedValue(Grouped(n)) == n
  {
    if n < 0 {
      GroupedNatRoundTrip(-n);
      NegativeValue(GroupedNat(-n));
    } else {
      GroupedNatRoundTrip(n);
      GroupedNatLeadingDigit(n);
      DigitLedValue(GroupedNat(n));
    }
  }

  lemma NegativeValue(g: string)
    ensures GroupedValue("-" + g) == -(DigitsValue(g) as int)
  {
    assert ("-" + g)[1..] == g;
  }

  lemma DigitLedValue(g: string)
    requires g != [] && IsDigit(g[0])
    ensures GroupedValue(g) == DigitsValue(g)
  {
  }

  /** Grouped output opens with a digit, and with a zero only when it is "0" itself. */
  lemma {:induction false} GroupedNatLeadingDigit(n: nat)
    ensures |GroupedNat(n)| > 0 && IsDigit(GroupedNat(n)[0])
    ensures n == 0 || GroupedNat(n)[0] != '0'
    ensures GroupedNat(n)[0] == '0' ==> GroupedNat(n) == "0"
    decreases n
  {
    if n < 1000 {
      DigitsAllDigits(n);
      DigitsLeadingDigit(n);
    } else {
      GroupedNatLeadingDigit(n / 1000);
    }
  }

  /** Plain digits have no leading zero. */
  lemma {:induction false} DigitsLeadingDigit(n: nat)
    ensures n == 0 || Digits(n)[0] != '0'
    decreases n
  {
    if n >= 10 {
      DigitsLeadingDigit(n / 10);
    }
  }

  // ---------------------------------------------------------------------------
  // Layout

  /** A comma exactly at the positions that leave a multiple of four characters from
      there to the end, and a digit everywhere else. */
  predicate CommaLayout(r: string)
  {
    && |r| % 4 != 0
    && (forall i :: 0 <= i < |r| ==> (r[i] == ',' <==> (|r| - i) % 4 == 0))
    && (forall i :: 0 <= i < |r| && r[i] != ',' ==> IsDigit(r[i]))
  }

  lemma CommaLayoutExtend(g: string, k: nat)
    requires k < 1000 && CommaLayout(g)
    ensures CommaLayout(g + "," + Pad3(k))
  {
    var r := g + "," + Pad3(k);
    DigitCharValue(k / 100);
    DigitCharValue(k / 10 % 10);
    DigitCharValue(k % 10);
    forall i | 0 <= i < |r|
      ensures (r[i] == ',' <==> (|r| - i) % 4 == 0)
      ensures r[i] != ',' ==> IsDigit(r[i])
    {
      if i < |g| {
        assert r[i] == g[i];
        assert (|r| - i) % 4 == (|g| - i) % 4;
      } else if i > |g| {
        assert r[i] == Pad3(k)[i - |g| - 1];
      }
    }
  }

  /** Up to three digits and no comma. */
  lemma DigitsLayout(n: nat)
    requires n < 1000
    ensures CommaLayout(Digits(n))
  {
    DigitsAllDigits(n);
    ShortLayout(Digits(n));
  }

  lemma {:induction false} DigitsAllDigits(n: nat)
    ensures forall i :: 0 <= i < |Digits(n)| ==> IsDigit(Digits(n)[i])
  {
    DigitCharValue(n % 10);
    if n >= 10 {
      DigitsAllDigits(n / 10);
    }
  }

  lemma ShortLayout(r: string)
    requires 1 <= |r| <= 3 && forall i :: 0 <= i < |r| ==> IsDigit(r[i])
    ensures CommaLayout(r)
  {
    forall i | 0 <= i < |r|
      ensures r[i] != ',' && (|r| - i) % 4 != 0
    {
      assert IsDigit(r[i]);
    }
  }

  /** Every group after the first has three digits, and the first has one to three. */
  lemma {:induction false} GroupedNatLayout(n: nat)
    ensures CommaLayout(GroupedNat(n))
    decreases n
  {
    if n < 1000 {
      DigitsLayout(n);
    } else {
      GroupedNatLayout(n / 1000);
      CommaLayoutExtend(GroupedNat(n / 1000), n % 1000);
    }
  }
}
