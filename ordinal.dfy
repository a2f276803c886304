/** English ordinal labels ("1st", "2nd", "3rd", "4th", "11th", "112th", ...)
    as built by `ordinal` in main.go: the decimal text of the number
    followed by a two-letter suffix. */
module Ordinals {

  import opened Wrappers

  predicate IsDigit(c: char) {
    '0' <= c <= '9'
  }

  predicate AllDigits(s: string) {
    forall i :: 0 <= i < |s| ==> IsDigit(s[i])
  }

  /** Decimal text as `strconv.Itoa` writes a non-negative number: at least
      one digit and no leading zero unless the number is 0. */
  predicate IsCanonicalDecimal(s: string) {
    |s| >= 1 && AllDigits(s) && (s[0] == '0' ==> |s| == 1)
  }

  function DigitValue(c: char): (d: nat)
    requires IsDigit(c)
    ensures d < 10
  {
    c as int - '0' as int
  }

  function DigitChar(d: nat): (c: char)
    requires d < 10
    ensures IsDigit(c) && DigitValue(c) == d
  {
    (d + '0' as int) as char
  }

  /** The number a string of decimal digits denotes (most significant first). */
  function ValueOf(s: string): nat
    requires AllDigits(s)
  {
    if s == [] then 0 else ValueOf(s[..|s| - 1]) * 10 + DigitValue(s[|s| - 1])
  }

  /** `strconv.Itoa(x)` for x >= 0: canonical decimal text that denotes x. */
  function Decimal(x: nat): (s: string)
    ensures IsCanonicalDecimal(s)
    ensures ValueOf(s) == x
  {
    if x < 10 then [DigitChar(x)]
    else
      var p := Decimal(x / 10);
      var s := p + [DigitChar(x % 10)];
      assert s[..|s| - 1] == p;
      s
  }

  /** A canonical decimal with a non-zero leading digit denotes a positive number. */
  lemma {:induction false} LeadingDigitPositive(s: string)
    requires IsCanonicalDecimal(s) && s[0] != '0'
    ensures ValueOf(s) >= 1
  {
    if |s| > 1 {
      var p := s[..|s| - 1];
      assert p[0] == s[0];
      LeadingDigitPositive(p);
    }
  }

  /** Decimal is onto the canonical decimal strings: it writes back exactly
      the text it would parse. */
  lemma {:induction false} DecimalOfValue(s: string)
    requires IsCanonicalDecimal(s)
    ensures Decimal(ValueOf(s)) == s
  {
    var d := DigitValue(s[|s| - 1]);
    assert DigitChar(d) == s[|s| - 1];
    if |s| == 1 {
      assert s == [s[0]];
    } else {
      var p := s[..|s| - 1];
      assert p[0] == s[0];
      LeadingDigitPositive(p);
      DecimalOfValue(p);
      var v := ValueOf(s);
      assert v == ValueOf(p) * 10 + d;
      assert v / 10 == ValueOf(p) && v % 10 == d;
      assert s == p + [s[|s| - 1]];
    }
  }

  /** The suffix chosen by the switch on `x % 10`: "th" by default, and
      "st", "nd", "rd" for a last digit 1, 2, 3 unless the number ends in
      11, 12, 13. */
  function Suffix(x: nat): (s: string)
    ensures |s| == 2
  {
    match x % 10
    case 1 => if x % 100 != 11 then "st" else "th"
    case 2 => if x % 100 != 12 then "nd" else "th"
    case 3 => if x % 100 != 13 then "rd" else "th"
    case _ => "th"
  }

  /** Which suffix a number takes, each case in both directions. */
  lemma SuffixRule(x: nat)
    ensures Suffix(x) in {"st", "nd", "rd", "th"}
    ensures Suffix(x) == "st" <==> x % 10 == 1 && x % 100 != 11
    ensures Suffix(x) == "nd" <==> x % 10 == 2 && x % 100 != 12
    ensures Suffix(x) == "rd" <==> x % 10 == 3 && x % 100 != 13
    ensures Suffix(x) == "th" <==> x % 10 !in {1, 2, 3} || 11 <= x % 100 <= 13
  {
  }

  /** The English rule read off the decimal digits: a tens digit of 1 makes
      every number "th"; otherwise the last digit 1, 2, 3 picks st, nd, rd. */
  function TensDigitSuffix(x: nat): string {
    var tens, units := (x / 10) % 10, x % 10;
    if tens == 1 then "th"
    else if units == 1 then "st"
    else if units == 2 then "nd"
    else if units == 3 then "rd"
    else "th"
  }

  /** The switch on `x % 10` and `x % 100` agrees with the tens-digit rule. */
  lemma SuffixByTensDigit(x: nat)
    ensures Suffix(x) == TensDigitSuffix(x)
  {
    var q := x / 10;
    assert x == 10 * q + x % 10;
    assert x % 100 == 10 * (q % 10) + x % 10;
  }

  /** `ordinal(x)`: the decimal text of x followed by its suffix. */
  function Ordinal(x: nat): (r: string)
    ensures |r| >= 3
  {
    Decimal(x) + Suffix(x)
  }

  /** Reads an ordinal label back: a canonical decimal, then the suffix that
      number takes; anything else is rejected. */
  function ParseOrdinal(r: string): (p: Option<nat>)
    ensures p.Some? ==> |r| >= 3 && IsCanonicalDecimal(r[..|r| - 2]) && ValueOf(r[..|r| - 2]) == p.value
  {
    if |r| < 3 then None
    else
      var digits, suffix := r[..|r| - 2], r[|r| - 2..];
      if !IsCanonicalDecimal(digits) then None
      else if suffix != Suffix(ValueOf(digits)) then None
      else Some(ValueOf(digits))
  }

  /** Labels and numbers correspond one to one: a label parses to x exactly
      when it is the label `ordinal` writes for x. */
  lemma OrdinalRoundTrip(x: nat, r: string)
    ensures ParseOrdinal(r) == Some(x) <==> r == Ordinal(x)
  {
    if r == Ordinal(x) {
      assert r[..|r| - 2] == Decimal(x) && r[|r| - 2..] == Suffix(x);
    }
    if ParseOrdinal(r) == Some(x) {
      var digits := r[..|r| - 2];
      DecimalOfValue(digits);
      assert r == digits + r[|r| - 2..];
    }
  }

  /** Distinct positions get distinct labels. */
  lemma OrdinalInjective(x: nat, y: nat)
    requires Ordinal(x) == Ordinal(y)
    ensures x == y
  {
    OrdinalRoundTrip(x, Ordinal(x));
    OrdinalRoundTrip(y, Ordinal(y));
  }

  /** Numbers ending in 11, 12 or 13 always take "th", whatever the last digit. */
  lemma TeensTakeTh(x: nat)
    requires 11 <= x % 100 <= 13
    ensures Ordinal(x) == Decimal(x) + "th"
  {
  }

  /** The label of x is a given decimal text of x followed by a given suffix. */
  lemma OrdinalIs(x: nat, digits: string, suffix: string)
    requires IsCanonicalDecimal(digits) && ValueOf(digits) == x && Suffix(x) == suffix
    ensures Ordinal(x) == digits + suffix
  {
    DecimalOfValue(digits);
  }

  /** The labels a reader meets first. */
  lemma FirstLabels()
    ensures Ordinal(1) == "1st" && Ordinal(2) == "2nd" && Ordinal(3) == "3rd" && Ordinal(4) == "4th"
  {
    OrdinalIs(1, "1", "st");
    OrdinalIs(2, "2", "nd");
    OrdinalIs(3, "3", "rd");
    OrdinalIs(4, "4", "th");
  }

  /** The teens take "th" although they end in 1, 2 and 3. */
  lemma TeenLabels()
    ensures Ordinal(11) == "11th" && Ordinal(12) == "12th" && Ordinal(13) == "13th"
  {
    OrdinalIs(11, "11", "th");
    OrdinalIs(12, "12", "th");
    OrdinalIs(13, "13", "th");
  }

  /** The labels of the last three of the 23 prompted positions. */
  lemma TwentiesLabels()
    ensures Ordinal(21) == "21st" && Ordinal(22) == "22nd" && Ordinal(23) == "23rd"
  {
    OrdinalIs(21, "21", "st");
    OrdinalIs(22, "22", "nd");
    OrdinalIs(23, "23", "rd");
  }

  /** Past a hundred the teens still take "th". */
  lemma HundredTeenLabels()
    ensures Ordinal(112) == "112th" && Ordinal(213) == "213th"
  {
    assert "112"[..2] == "11" && "11"[..1] == "1";
    assert ValueOf("112") == 112;
    OrdinalIs(112, "112", "th");
    assert "213"[..2] == "21" && "21"[..1] == "2";
    assert ValueOf("213") == 213;
    OrdinalIs(213, "213", "th");
  }
}
