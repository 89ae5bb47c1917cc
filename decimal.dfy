/**
 * Unpadded decimal formatting of a non-negative integer, as Rust's `{}`
 * Display formatting writes a `u8`, together with its inverse.
 */
module Decimal {

  /** A byte of the pixel buffer. */
  type byte = x: int | 0 <= x < 256

  predicate IsDigit(c: char) {
    '0' <= c <= '9'
  }

  function DigitChar(d: nat): (c: char)
    requires d < 10
    ensures IsDigit(c) && c as int - '0' as int == d
  {
    ('0' as int + d) as char
  }

  function DigitValue(c: char): (d: nat)
    requires IsDigit(c)
    ensures d < 10 && DigitChar(d) == c
  {
    c as int - '0' as int
  }

  predicate AllDigits(s: string) {
    forall i :: 0 <= i < |s| ==> IsDigit(s[i])
  }

  /** The decimal digits of `n`, most significant first, without leading zeros. */
  function Dec(n: nat): (s: string)
    ensures 1 <= |s|
    ensures |s| > 1 ==> s[0] != '0'
    decreases n, 1
  {
    Leading(n) + [DigitChar(n % 10)]
  }

  /** The digits of `n` before its last one. */
  function Leading(n: nat): (s: string)
    ensures n < 10 <==> s == []
    ensures s != [] ==> s[0] != '0'
    decreases n, 0
  {
    if n < 10 then [] else Dec(n / 10)
  }

  /** The number a string of digits denotes. */
  function DecValue(s: string): nat
    requires AllDigits(s)
  {
    if s == [] then 0 else DecValue(s[..|s| - 1]) * 10 + DigitValue(s[|s| - 1])
  }

  /** Only digits are written. */
  lemma {:induction false} DecDigits(n: nat)
    ensures AllDigits(Dec(n))
    decreases n
  {
    if n >= 10 {
      DecDigits(n / 10);
    }
  }

  /** Reading the digits back gives the number formatted. */
  lemma {:induction false} DecRoundTrip(n: nat)
    ensures AllDigits(Dec(n)) && DecValue(Dec(n)) == n
    decreases n
  {
    DecDigits(n);
    var init := Leading(n);
    var s := Dec(n);
    assert s == init + [DigitChar(n % 10)];
    assert s[..|s| - 1] == init;
    assert DecValue(s) == DecValue(init) * 10 + n % 10;
    if n >= 10 {
      DecDigits(n / 10);
      DecRoundTrip(n / 10);
    }
  }

  /** A byte is written with one, two or three digits, by magnitude. */
  lemma ByteDecLength(b: byte)
    ensures |Dec(b)| == if b < 10 then 1 else if b < 100 then 2 else 3
  {
    if b >= 10 {
      assert |Dec(b)| == |Dec(b / 10)| + 1;
      if b >= 100 {
        assert |Dec(b / 10)| == |Dec(b / 100)| + 1;
      }
    }
  }

  lemma DecOf255()
    ensures Dec(255) == "255"
  {
    assert Dec(2) == "2";
    assert Dec(25) == "25";
  }

  lemma DecOf128()
    ensures Dec(128) == "128"
  {
    assert Dec(1) == "1";
    assert Dec(12) == "12";
  }

  /** The formatting is injective: distinct numbers give distinct strings. */
  lemma DecInjective(m: nat, n: nat)
    requires Dec(m) == Dec(n)
    ensures m == n
  {
    DecRoundTrip(m);
    DecRoundTrip(n);
  }
}
