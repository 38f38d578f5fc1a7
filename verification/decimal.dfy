/** Python's `str(n)` for a non-negative integer, its inverse, and the
    `s[-2:]` slice the date token takes of the year. */
module Decimal {

  predicate IsDigit(c: char) {
    '0' <= c <= '9'
  }

  predicate AllDigits(s: string) {
    forall i :: 0 <= i < |s| ==> IsDigit(s[i])
  }

  function DigitChar(k: nat): (c: char)
    requires k < 10
    ensures IsDigit(c)
  {
    ('0' as int + k) as char
  }

  function DigitValue(c: char): int {
    c as int - '0' as int
  }

  /** The number a string of decimal digits denotes, read most significant
      digit first. The empty string denotes 0; callers check that every
      character is a digit before reading a value. */
  function Value(s: string): int {
    if |s| == 0 then 0 else 10 * Value(s[..|s| - 1]) + DigitValue(s[|s| - 1])
  }

  /** `str(n)`: at least one character, all of them digits. */
  function NatToString(n: nat): (r: string)
    ensures 1 <= |r|
    ensures AllDigits(r)
  {
    if n < 10 then [DigitChar(n)] else NatToString(n / 10) + [DigitChar(n % 10)]
  }

  /** `str(n)` is one digit exactly for the numbers below ten and two digits
      for the numbers from ten to ninety-nine. */
  lemma {:induction false} NatToStringLength(n: nat)
    ensures |NatToString(n)| == 1 <==> n < 10
    ensures 10 <= n < 100 ==> |NatToString(n)| == 2
  {
    if 10 <= n < 100 {
      NatToStringLength(n / 10);
    }
  }

  /** `str(n)` has no leading zero, except for `n == 0` itself. */
  lemma {:induction false} NatToStringNoLeadingZero(n: nat)
    ensures NatToString(n)[0] == '0' <==> n == 0
  {
    if n >= 10 {
      NatToStringNoLeadingZero(n / 10);
      assert NatToString(n)[0] == NatToString(n / 10)[0];
    }
  }

  /** Reading back `str(n)` gives `n`. */
  lemma {:induction false} ValueOfNatToString(n: nat)
    ensures Value(NatToString(n)) == n
  {
    var r := NatToString(n);
    if n < 10 {
      assert r[..0] == [];
    } else {
      ValueOfNatToString(n / 10);
      assert r[..|r| - 1] == NatToString(n / 10);
    }
  }

  /** Python's `s[-2:]`: the last two characters, or the whole string when it
      is shorter than that. */
  function LastTwo(s: string): (r: string)
    ensures |r| == if |s| >= 2 then 2 else |s|
    ensures s == s[..|s| - |r|] + r
  {
    if |s| >= 2 then s[|s| - 2..] else s
  }

  lemma DigitValueOfDigitChar(k: nat)
    requires k < 10
    ensures DigitValue(DigitChar(k)) == k
  {
  }

  /** The tens and units digits of `n` together denote `n % 100`. */
  lemma TensAndUnits(n: nat)
    ensures 10 * ((n / 10) % 10) + n % 10 == n % 100
  {
    var a, b := n / 10, n % 10;
    var c, d := a / 10, a % 10;
    assert n == 100 * c + (10 * d + b);
    assert 0 <= 10 * d + b < 100;
  }

  /** The value of a two-digit string. */
  lemma ValueOfTwo(x: char, y: char)
    requires IsDigit(x) && IsDigit(y)
    ensures Value([x, y]) == 10 * DigitValue(x) + DigitValue(y)
  {
    assert [x, y][..1] == [x];
    assert [x][..0] == [];
    assert Value([x]) == DigitValue(x);
  }

  /** The last character of `str(m)` is its units digit. */
  lemma LastDigit(m: nat)
    ensures var s := NatToString(m); s[|s| - 1] == DigitChar(m % 10)
  {
  }

  lemma LastTwoOfAppend(h: string, c: char)
    requires |h| >= 1
    ensures LastTwo(h + [c]) == [h[|h| - 1], c]
  {
  }

  /** The tens and units digits of `n`, written out, denote `n % 100`. */
  lemma TailValue(n: nat, x: char, y: char)
    requires x == DigitChar((n / 10) % 10) && y == DigitChar(n % 10)
    ensures AllDigits([x, y])
    ensures Value([x, y]) == n % 100
  {
    ValueOfTwo(x, y);
    DigitValueOfDigitChar((n / 10) % 10);
    DigitValueOfDigitChar(n % 10);
    TensAndUnits(n);
  }

  /** The last two characters of `str(n)` denote `n % 100`; for `n >= 10`
      there are exactly two of them. */
  lemma LastTwoDigits(n: nat)
    ensures AllDigits(LastTwo(NatToString(n)))
    ensures Value(LastTwo(NatToString(n))) == n % 100
    ensures n >= 10 ==> |LastTwo(NatToString(n))| == 2
  {
    if n < 10 {
      LastTwoOfShort(n);
    } else {
      LastTwoOfLong(n);
    }
  }

  lemma LastTwoOfShort(n: nat)
    requires n < 10
    ensures AllDigits(LastTwo(NatToString(n)))
    ensures Value(LastTwo(NatToString(n))) == n % 100
  {
    var s := NatToString(n);
    assert s == [DigitChar(n)];
    assert LastTwo(s) == s;
    assert s[..0] == [];
    DigitValueOfDigitChar(n);
    assert n % 100 == n;
  }

  lemma LastTwoOfLong(n: nat)
    requires n >= 10
    ensures AllDigits(LastTwo(NatToString(n)))
    ensures Value(LastTwo(NatToString(n))) == n % 100
    ensures |LastTwo(NatToString(n))| == 2
  {
    var hi := NatToString(n / 10);
    var y := DigitChar(n % 10);
    assert NatToString(n) == hi + [y];
    LastDigit(n / 10);
    LastTwoOfAppend(hi, y);
    TailValue(n, hi[|hi| - 1], y);
  }
}
