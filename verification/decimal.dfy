/**
 * Decimal text of natural numbers: `str(n)` and reading a run of digits back.
 */
module Decimal {

  predicate IsDigit(c: char) {
    '0' <= c <= '9'
  }

  predicate AllDigits(s: string) {
    forall i :: 0 <= i < |s| ==> IsDigit(s[i])
  }

  function DigitChar(d: nat): (c: char)
    requires d < 10
    ensures IsDigit(c)
  {
    ('0' as int + d) as char
  }

  function DigitValue(c: char): (d: nat)
    requires IsDigit(c)
    ensures d < 10
  {
    c as int - '0' as int
  }

  /** `str(n)`: the decimal digits of n, most significant first, without leading zeros. */
  function Show(n: nat): (s: string)
    ensures 1 <= |s| && AllDigits(s)
  {
    if n < 10 then [DigitChar(n)] else Show(n / 10) + [DigitChar(n % 10)]
  }

  /** Dropping the last digit of the text divides by ten. */
  lemma ShowDropLast(n: nat)
    requires n >= 10
    ensures Show(n)[..|Show(n)| - 1] == Show(n / 10)
  {
  }

  /** The number a run of decimal digits denotes (the empty run denotes 0). */
  function Parse(s: string): nat
    requires AllDigits(s)
  {
    if |s| == 0 then 0 else Parse(s[..|s| - 1]) * 10 + DigitValue(s[|s| - 1])
  }

  function Pow10(k: nat): (p: nat)
    ensures p >= 1
  {
    if k == 0 then 1 else 10 * Pow10(k - 1)
  }

  /** Reading back the text of n gives n. */
  lemma {:induction false} ParseShow(n: nat)
    ensures Parse(Show(n)) == n
    decreases n
  {
    if n >= 10 {
      ParseShow(n / 10);
    }
  }

  /** A number with k digits has a k-character text. */
  lemma {:induction false} ShowLength(n: nat, k: nat)
    requires 1 <= k && Pow10(k - 1) <= n < Pow10(k)
    ensures |Show(n)| == k
    decreases k
  {
    if k == 1 {
      assert n < 10;
    } else {
      assert Pow10(k - 1) == 10 * Pow10(k - 2);
      ShowLength(n / 10, k - 1);
    }
  }

  /** Reading a run of digits followed by two more digits. */
  lemma ParseAppendTwo(a: string, b: string)
    requires AllDigits(a) && AllDigits(b) && |b| == 2
    ensures AllDigits(a + b)
    ensures Parse(a + b) == Parse(a) * 100 + Parse(b)
  {
    var ab := a + b;
    var a0 := a + [b[0]];
    assert ab[..|ab| - 1] == a0;
    assert a0[..|a0| - 1] == a;
    assert Parse(a0) == Parse(a) * 10 + DigitValue(b[0]);
    assert Parse(ab) == Parse(a0) * 10 + DigitValue(b[1]);
    assert b[..1] == [b[0]];
    assert [b[0]][..0] == [];
    assert Parse([b[0]]) == DigitValue(b[0]);
    assert Parse(b) == DigitValue(b[0]) * 10 + DigitValue(b[1]);
  }

  /** An eight-digit number has an eight-character text. */
  lemma EightDigitText(n: nat)
    requires 10000000 <= n <= 99999999
    ensures |Show(n)| == 8
  {
    assert Pow10(1) == 10;
    assert Pow10(2) == 100;
    assert Pow10(3) == 1000;
    assert Pow10(4) == 10000;
    assert Pow10(5) == 100000;
    assert Pow10(6) == 1000000;
    assert Pow10(7) == 10000000;
    assert Pow10(8) == 100000000;
    ShowLength(n, 8);
  }

  lemma TwoDigitsBelowHundred(s: string)
    requires AllDigits(s) && |s| == 2
    ensures Parse(s) < 100
  {
    assert s[..1][..0] == [];
    assert Parse(s[..1]) == DigitValue(s[0]);
    assert Parse(s) == Parse(s[..1]) * 10 + DigitValue(s[1]);
  }
}
