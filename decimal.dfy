/**
 * Decimal rendering of unsigned integers, as Rust's `{}` and `{:02}` format
 * them, together with a reader that undoes the rendering.
 */
module Decimal {
  import opened Wrappers

  predicate IsDigit(c: char) {
    '0' <= c <= '9'
  }

  predicate AllDigits(s: string) {
    forall i :: 0 <= i < |s| ==> IsDigit(s[i])
  }

  function DigitChar(d: nat): (c: char)
    requires d < 10
    ensures IsDigit(c) && c as int - '0' as int == d
  {
    ('0' as int + d) as char
  }

  /** `{}` on an unsigned integer: the digits of n, without sign or leading zeros. */
  function Show(n: nat): (s: string)
    ensures |s| >= 1 && AllDigits(s)
    ensures (s[0] == '0') == (n == 0)
    ensures n < 10 <==> |s| == 1
    ensures n >= 1000 ==> |s| >= 4
  {
    if n < 10 then [DigitChar(n)] else Show(n / 10) + [DigitChar(n % 10)]
  }

  /** `{:02}`: at least two digits, padded on the left with zeros. */
  function Pad2(n: nat): (s: string)
    ensures |s| >= 2 && AllDigits(s)
  {
    if n < 10 then "0" + Show(n) else Show(n)
  }

  /** `{:04}`: at least four digits, padded on the left with zeros. */
  function Pad4(n: nat): (s: string)
    ensures |s| >= 4 && AllDigits(s)
  {
    if n < 10 then "000" + Show(n)
    else if n < 100 then "00" + Show(n)
    else if n < 1000 then "0" + Show(n)
    else Show(n)
  }

  /** The number a string of digits denotes. */
  function Value(s: string): nat
    requires AllDigits(s)
  {
    if s == [] then 0 else Value(s[..|s| - 1]) * 10 + (s[|s| - 1] as int - '0' as int)
  }

  /** Reads back what Show writes: a non-empty digit string without a leading zero. */
  function Read(s: string): (r: Option<nat>)
    ensures r.Some? ==> |s| >= 1 && AllDigits(s)
  {
    if |s| >= 1 && AllDigits(s) && (|s| == 1 || s[0] != '0') then Some(Value(s)) else None
  }

  lemma {:induction false} ValueShow(n: nat)
    ensures Value(Show(n)) == n
  {
    if n >= 10 {
      var s := Show(n);
      assert s[..|s| - 1] == Show(n / 10);
      ValueShow(n / 10);
    }
  }

  /** Show and Read are inverse: the rendering loses nothing. */
  lemma ReadShow(n: nat)
    ensures Read(Show(n)) == Some(n)
  {
    ValueShow(n);
  }

  /** Different numbers are rendered differently. */
  lemma ShowInjective(a: nat, b: nat)
    requires Show(a) == Show(b)
    ensures a == b
  {
    ReadShow(a);
    ReadShow(b);
  }
}
