/** Decimal text of integers: what "%d" writes and atoi reads. */
module Decimal {
  predicate IsDigit(c: char) { '0' <= c <= '9' }

  function DigitValue(c: char): nat
    requires IsDigit(c)
  {
    c as int - '0' as int
  }

  function NatText(n: nat): string {
    if n < 10 then [('0' as int + n) as char] else NatText(n / 10) + [('0' as int + n % 10) as char]
  }

  function IntText(n: int): string {
    if n < 0 then "-" + NatText(-n) else NatText(n)
  }

  /** The value of the leading digits of `s`, after those already read. */
  function LeadingDigits(s: string, read: nat := 0): nat
    decreases |s|
  {
    if s == "" || !IsDigit(s[0]) then read else LeadingDigits(s[1..], 10 * read + DigitValue(s[0]))
  }

  function Atoi(s: string): int {
    if s != "" && s[0] == '-' then -(LeadingDigits(s[1..]) as int) else LeadingDigits(s)
  }

  predicate AllDigits(s: string) { forall i :: 0 <= i < |s| ==> IsDigit(s[i]) }

  /** An optional sign and digits without superfluous zeros. */
  predicate Canonical(s: string) {
    var digits := if s != "" && s[0] == '-' then s[1..] else s;
    digits != "" && AllDigits(digits) && (digits[0] == '0' ==> s == "0")
  }

  lemma {:induction false} NatTextCanonical(n: nat)
    ensures NatText(n) != "" && AllDigits(NatText(n)) && (NatText(n)[0] == '0' ==> n == 0)
    decreases n
  {
    if n >= 10 { NatTextCanonical(n / 10); }
  }

  lemma {:induction false} LeadingDigitsSnoc(s: string, d: char, read: nat)
    requires AllDigits(s) && IsDigit(d)
    ensures LeadingDigits(s + [d], read) == 10 * LeadingDigits(s, read) + DigitValue(d)
    decreases |s|
  {
    if s == "" {
      assert (s + [d])[1..] == "";
    } else {
      assert (s + [d])[1..] == s[1..] + [d];
      LeadingDigitsSnoc(s[1..], d, 10 * read + DigitValue(s[0]));
    }
  }

  lemma {:induction false} NatTextValue(n: nat)
    ensures LeadingDigits(NatText(n)) == n
    decreases n
  {
    if n < 10 {
      assert LeadingDigits(NatText(n)[1..], n) == n;
    } else {
      NatTextCanonical(n / 10);
      NatTextValue(n / 10);
      LeadingDigitsSnoc(NatText(n / 10), ('0' as int + n % 10) as char, 0);
    }
  }

  /** Reading back the text of an integer gives the integer. */
  lemma AtoiIntText(n: int)
    ensures Atoi(IntText(n)) == n && Canonical(IntText(n))
  {
    var abs := if n < 0 then -n else n;
    NatTextCanonical(abs);
    NatTextValue(abs);
    if n < 0 { assert IntText(n)[1..] == NatText(abs); }
  }

  lemma {:induction false} TextOfValue(s: string)
    requires s != "" && AllDigits(s) && (s[0] == '0' ==> |s| == 1)
    ensures NatText(LeadingDigits(s)) == s && (s[0] != '0' ==> LeadingDigits(s) > 0)
    decreases |s|
  {
    var init, last := s[..|s| - 1], s[|s| - 1];
    assert s == init + [last];
    LeadingDigitsSnoc(init, last, 0);
    if init != "" { TextOfValue(init); }
  }

  /** Canonical text is the text of the integer it denotes. */
  lemma IntTextAtoi(s: string)
    requires Canonical(s)
    ensures IntText(Atoi(s)) == s
  {
    if s[0] == '-' { TextOfValue(s[1..]); } else { TextOfValue(s); }
  }

  function Pow10(k: nat): (p: nat)
    ensures p > 0
  {
    if k == 0 then 1 else 10 * Pow10(k - 1)
  }

  lemma {:induction false} NatTextLength(n: nat, k: nat)
    requires n < Pow10(k) && k > 0
    ensures |NatText(n)| <= k
    decreases n
  {
    if n >= 10 { NatTextLength(n / 10, k - 1); }
  }

  // ---------- the digits themselves ----------

  lemma {:induction false} TimesAtLeast(a: nat, b: nat, p: nat)
    requires a < b
    ensures a * p + p <= b * p
    decreases b
  {
    assert b * p == (b - 1) * p + p;
    if a < b - 1 { TimesAtLeast(a, b - 1, p); }
  }

  lemma QuotientIs(a: nat, p: nat, q: nat)
    requires p > 0 && q * p <= a < q * p + p
    ensures a / p == q
  {
    var r := a / p;
    assert r * p <= a < r * p + p;
    if r < q { TimesAtLeast(r, q, p); }
    if r > q { TimesAtLeast(q, r, p); }
  }

  lemma DivideTwice(n: nat, p: nat)
    requires p > 0
    ensures n / 10 / p == n / (10 * p)
  {
    var q := n / (10 * p);
    assert q * (10 * p) <= n < q * (10 * p) + 10 * p;
    assert q * (10 * p) == 10 * (q * p);
    QuotientIs(n / 10, p, q);
  }

  /** The character k places from the right stands for the k-th decimal digit. */
  lemma {:induction false} NatTextDigit(n: nat, k: nat)
    requires k < |NatText(n)|
    ensures NatText(n)[|NatText(n)| - 1 - k] == (48 + n / Pow10(k) % 10) as char
    decreases k
  {
    if k > 0 {
      NatTextDigit(n / 10, k - 1);
      DivideTwice(n, Pow10(k - 1));
    }
  }

  /** The text is as long as the number is. */
  lemma {:induction false} NatTextWidth(n: nat)
    ensures |NatText(n)| > 0 && n < Pow10(|NatText(n)|) && (|NatText(n)| > 1 ==> n >= Pow10(|NatText(n)| - 1))
    decreases n
  {
    if n >= 10 { NatTextWidth(n / 10); }
  }

  /** The text of an integer: a minus sign for a negative one, then its decimal digits, highest first. */
  lemma IntTextDigits(n: int, k: nat)
    requires k < |NatText(if n < 0 then -n else n)|
    ensures var abs := if n < 0 then -n else n;
      var digits := IntText(n)[if n < 0 then 1 else 0..];
      && (n < 0 ==> IntText(n)[0] == '-')
      && k < |digits| && digits[|digits| - 1 - k] == (48 + abs / Pow10(k) % 10) as char
      && abs < Pow10(|digits|) && (|digits| > 1 ==> abs >= Pow10(|digits| - 1))
  {
    var abs := if n < 0 then -n else n;
    NatTextDigit(abs, k);
    NatTextWidth(abs);
    assert IntText(n)[if n < 0 then 1 else 0..] == NatText(abs);
  }
}
