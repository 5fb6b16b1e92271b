/**
  Base-16 text of a non-negative number, as avr-libc's `itoa(n, buf, 16)`
  produces it: lower-case digits, most significant first, no zero padding,
  and "0" for zero. `Parse` is its inverse on canonical digit strings.
 */
module Hex {

  const Digits: string := "0123456789abcdef"

  predicate IsDigit(ch: char) {
    ('0' <= ch <= '9') || ('a' <= ch <= 'f')
  }

  predicate AllDigits(s: string) {
    forall i :: 0 <= i < |s| ==> IsDigit(s[i])
  }

  /** A digit string `Format` can produce: non-empty, no leading zero unless it is "0". */
  predicate Canonical(s: string) {
    && |s| >= 1
    && AllDigits(s)
    && (s[0] == '0' ==> |s| == 1)
  }

  function Pow16(k: nat): (p: nat)
    ensures p >= 1
  {
    if k == 0 then 1 else 16 * Pow16(k - 1)
  }

  function DigitValue(ch: char): (d: nat)
    requires IsDigit(ch)
    ensures d < 16
    ensures Digits[d] == ch
  {
    if ch <= '9' then ch as nat - '0' as nat else ch as nat - 'a' as nat + 10
  }

  function Digit(d: nat): (ch: char)
    requires d < 16
    ensures IsDigit(ch)
    ensures DigitValue(ch) == d
  {
    Digits[d]
  }

  /** The text `itoa(n, buf, 16)` writes for `n >= 0`. */
  function Format(n: nat): (s: string)
    ensures Canonical(s)
    ensures s[0] == '0' <==> n == 0
    ensures n < Pow16(|s|)
    ensures |s| >= 2 ==> Pow16(|s| - 1) <= n
  {
    if n < 16 then [Digit(n)] else Format(n / 16) + [Digit(n % 16)]
  }

  /** The number a string of base-16 digits denotes. */
  function Parse(s: string): nat
    requires AllDigits(s)
  {
    if |s| == 0 then 0 else Parse(s[..|s| - 1]) * 16 + DigitValue(s[|s| - 1])
  }

  lemma {:induction false} ParseFormat(n: nat)
    ensures Parse(Format(n)) == n
  {
    if n >= 16 {
      var s := Format(n);
      assert s[..|s| - 1] == Format(n / 16);
      ParseFormat(n / 16);
    }
  }

  lemma {:induction false} ParseCanonicalPositive(s: string)
    requires Canonical(s) && s[0] != '0'
    ensures Parse(s) > 0
  {
    if |s| > 1 {
      var p := s[..|s| - 1];
      assert p[0] == s[0];
      ParseCanonicalPositive(p);
    }
  }

  lemma {:induction false} FormatParse(s: string)
    requires Canonical(s)
    ensures Format(Parse(s)) == s
  {
    if |s| == 1 {
      assert Digits[DigitValue(s[0])] == s[0];
    } else {
      var p := s[..|s| - 1];
      var d := DigitValue(s[|s| - 1]);
      assert p[0] == s[0];
      ParseCanonicalPositive(p);
      FormatParse(p);
      assert Parse(s) / 16 == Parse(p) && Parse(s) % 16 == d;
      assert s == p + [s[|s| - 1]];
    }
  }

  /** A byte prints as one digit below 16 and two digits from 16 on. */
  lemma FormatWidth(n: nat)
    requires n < 256
    ensures |Format(n)| == if n < 16 then 1 else 2
  {
  }

  /** A byte from 16 on prints as its high and low nibble. */
  lemma FormatByte(n: nat)
    requires 16 <= n < 256
    ensures Format(n) == [Digits[n / 16], Digits[n % 16]]
  {
  }

  /** The device addresses of the example scans print as they would on the console. */
  lemma FormatExamples()
    ensures Format(0x3c) == "3c" && Format(0x57) == "57" && Format(0x68) == "68"
  {
    FormatByte(0x3c);
    FormatByte(0x57);
    FormatByte(0x68);
    assert Digits[3] == '3' && Digits[12] == 'c';
    assert Digits[5] == '5' && Digits[7] == '7';
    assert Digits[6] == '6' && Digits[8] == '8';
  }

  /** Different numbers never print the same text. */
  lemma FormatInjective(m: nat, n: nat)
    ensures Format(m) == Format(n) <==> m == n
  {
    ParseFormat(m);
    ParseFormat(n);
  }
}
