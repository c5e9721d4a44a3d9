/** print_int of the small printf: digits extracted in reverse into a fixed buffer, then written backwards. */
module Sysout {
  import opened Decimal

  const INT_MIN := -0x8000_0000

  type Int32 = n: int | INT_MIN <= n < 0x8000_0000

  // C division truncates toward zero and the remainder has the sign of the dividend.
  function Quotient(n: int): int { if n < 0 then -(-n / 10) else n / 10 }

  function Remainder(n: int): int { if n < 0 then -(-n % 10) else n % 10 }

  // Two's complement: the negation of INT_MIN is INT_MIN again.
  function Negate(n: Int32): Int32 { if n == INT_MIN then n else -n }

  /** '0' plus a remainder; below '0' for a negative one. */
  function DigitCode(n: int): char { (48 + Remainder(n)) as char }

  /** The characters the digit loop stores for `n`, lowest digit first. */
  function LoopDigits(n: int): string
    decreases if n < 0 then -n else n
  {
    if n == 0 then "" else [DigitCode(n)] + LoopDigits(Quotient(n))
  }

  function Reverse(s: string): string { if s == "" then "" else Reverse(s[1..]) + [s[0]] }

  lemma {:induction false} LoopDigitsText(n: nat)
    requires n > 0
    ensures Reverse(LoopDigits(n)) == NatText(n)
    decreases n
  {
    assert LoopDigits(n)[1..] == LoopDigits(n / 10);
    if n >= 10 { LoopDigitsText(n / 10); }
  }

  lemma {:induction false} LoopDigitsLength(n: int, k: nat)
    requires -(Pow10(k) as int) < n < Pow10(k)
    ensures |LoopDigits(n)| <= k
    decreases k
  {
    if n != 0 { LoopDigitsLength(Quotient(n), k - 1); }
  }

  /** Digits taken from a negative number lie at or below '0', the leading one strictly below. */
  lemma {:induction false} NegativeLoopDigits(n: int)
    requires n < 0
    ensures var s := Reverse(LoopDigits(n)); s != "" && s[0] < '0'
    decreases -n
  {
    assert LoopDigits(n)[1..] == LoopDigits(Quotient(n));
    if n <= -10 { NegativeLoopDigits(Quotient(n)); }
  }

  lemma {:induction false} ReverseSnoc(s: string, c: char)
    ensures Reverse(s + [c]) == [c] + Reverse(s)
    decreases |s|
  {
    if s != "" {
      assert (s + [c])[1..] == s[1..] + [c];
      ReverseSnoc(s[1..], c);
    }
  }

  /** The text of the digit loop, with the sign stored last and everything written backwards, is
      canonical decimal exactly when the negation did not overflow. */
  lemma LoopText(n: Int32)
    requires n != 0
    ensures var m := if n < 0 then Negate(n) else n;
      var stored := LoopDigits(m) + if n < 0 then "-" else "";
      && |LoopDigits(m)| <= 10
      && (n != INT_MIN ==> Reverse(stored) == IntText(n))
      && (n == INT_MIN ==> !Canonical(Reverse(stored)))
  {
    var m := if n < 0 then Negate(n) else n;
    LoopDigitsLength(m, 10);
    ReverseSnoc(LoopDigits(m), '-');
    assert LoopDigits(m) + "" == LoopDigits(m);
    if m > 0 {
      LoopDigitsText(m);
    } else {
      NegativeLoopDigits(m);
      var s := Reverse(LoopDigits(m));
      assert (['-'] + s)[1..] == s;
    }
  }

  lemma LoopStep(n: int)
    requires n != 0
    ensures LoopDigits(n) == [DigitCode(n)] + LoopDigits(Quotient(n))
  {
  }

  lemma LoopEnd()
    ensures LoopDigits(0) == ""
  {
  }

  lemma IntMinHighDigits()
    ensures LoopDigits(-21474) == ",),/."
  {
    hide LoopDigits;
    LoopEnd();
    LoopStep(-2);
    LoopStep(-21);
    LoopStep(-214);
    LoopStep(-2147);
    LoopStep(-21474);
    assert LoopDigits(-2) == ".";
    assert LoopDigits(-21) == "/.";
    assert LoopDigits(-214) == ",/.";
    assert LoopDigits(-2147) == "),/.";
    assert LoopDigits(-21474) == ",),/.";
  }

  lemma IntMinDigits()
    ensures LoopDigits(-2147483648) == "(,*-(,),/."
  {
    hide LoopDigits;
    IntMinHighDigits();
    LoopStep(-214748);
    LoopStep(-2147483);
    LoopStep(-21474836);
    LoopStep(-214748364);
    LoopStep(-2147483648);
    assert LoopDigits(-214748) == "(,),/.";
    assert LoopDigits(-2147483) == "-(,),/.";
    assert LoopDigits(-21474836) == "*-(,),/.";
    assert LoopDigits(-214748364) == ",*-(,),/.";
    assert LoopDigits(-2147483648) == "(,*-(,),/.";
  }

  /** The remainders of INT_MIN are negative, so its digits come from below '0'. */
  lemma IntMinText()
    ensures Reverse(LoopDigits(INT_MIN) + "-") == "-./,),(-*,("
  {
    hide LoopDigits, Reverse;
    IntMinDigits();
    assert LoopDigits(INT_MIN) + "-" == "(,*-(,),/.-";
    ReverseIs("(,*-(,),/.-", "-./,),(-*,(");
  }

  lemma {:induction false} ReverseIs(s: string, r: string)
    requires |r| == |s| && forall i :: 0 <= i < |s| ==> r[i] == s[|s| - 1 - i]
    ensures Reverse(s) == r
    decreases |s|
  {
    if s != "" {
      var init := r[..|r| - 1];
      assert forall i :: 0 <= i < |init| ==> init[i] == s[1..][|s[1..]| - 1 - i];
      ReverseIs(s[1..], init);
      assert r == init + [s[0]];
    }
  }

  /** At most 11 of the 12 slots are used. For every int but INT_MIN the text written is the
      canonical decimal form of `n`, which reads back as `n`; for INT_MIN it is no number at all. */
  method PrintInt(n: Int32) returns (out: string, used: nat)
    ensures used <= 11
    ensures Canonical(out) <==> n != INT_MIN
    ensures n != INT_MIN ==> out == IntText(n) && Atoi(out) == n
    ensures n == INT_MIN ==> out == "-./,),(-*,("
  {
    AtoiIntText(n);
    var buf := new char[12];
    var i: nat := 0;
    var negative := n < 0;
    var m: Int32 := n;
    if negative { m := Negate(m); }
    if m == 0 { return "0", 0; }

    LoopText(n);
    ghost var digits := LoopDigits(m);
    i := StoreDigits(buf, m);
    if negative {
      buf[i] := '-';
      i := i + 1;
    }
    used := i;
    assert buf[..i] == digits + if negative then "-" else "";
    out := WriteBackwards(buf, i);
    if n == INT_MIN { IntMinText(); }
  }

  method StoreDigits(buf: array<char>, n: Int32) returns (i: nat)
    requires |LoopDigits(n)| <= buf.Length
    modifies buf
    ensures i == |LoopDigits(n)| && buf[..i] == LoopDigits(n)
  {
    ghost var digits := LoopDigits(n);
    var m := n;
    i := 0;
    while m != 0
      invariant i <= |digits| && buf[..i] == digits[..i] && digits[i..] == LoopDigits(m)
      decreases if m < 0 then -m else m
    {
      assert digits[i..][0] == DigitCode(m) && digits[i..][1..] == digits[i + 1..];
      buf[i] := DigitCode(m);
      i := i + 1;
      m := Quotient(m);
    }
  }

  method WriteBackwards(buf: array<char>, n: nat) returns (out: string)
    requires n <= buf.Length
    ensures out == Reverse(buf[..n])
  {
    var i := n;
    out := "";
    while i != 0
      invariant 0 <= i <= n && out + Reverse(buf[..i]) == Reverse(buf[..n])
    {
      i := i - 1;
      assert buf[..i + 1] == buf[..i] + [buf[i]];
      ReverseSnoc(buf[..i], buf[i]);
      out := out + [buf[i]];
    }
  }
}
