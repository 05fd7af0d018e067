/** Decimal digit strings: what `Number` makes of a digits-only string, and
    the digit rendering used in slot identities. */
module Decimal {

  predicate IsDigit(c: char) {
    '0' <= c <= '9'
  }

  predicate AllDigits(s: string) {
    forall i :: 0 <= i < |s| ==> IsDigit(s[i])
  }

  function DigitChar(d: nat): (c: char)
    requires d < 10
    ensures IsDigit(c)
  {
    ('0' as int + d) as char
  }

  /** The number a digits-only string denotes; the empty string denotes 0,
      as `Number("")` does. */
  function Value(s: string): nat
    requires AllDigits(s)
  {
    if s == [] then 0
    else 10 * Value(s[..|s| - 1]) + (s[|s| - 1] as int - '0' as int)
  }

  /** The shortest decimal rendering of `n`. */
  function Render(n: nat): string
  {
    if n < 10 then [DigitChar(n)] else Render(n / 10) + [DigitChar(n % 10)]
  }

  lemma {:induction false} RenderDigits(n: nat)
    ensures 0 < |Render(n)| && AllDigits(Render(n))
  {
    if n >= 10 {
      RenderDigits(n / 10);
    }
  }

  /** Reading back a rendering gives the number. */
  lemma {:induction false} RenderRoundTrip(n: nat)
    ensures AllDigits(Render(n))
    ensures Value(Render(n)) == n
  {
    RenderDigits(n);
    if n >= 10 {
      RenderDigits(n / 10);
      RenderRoundTrip(n / 10);
      var r := Render(n);
      assert r[..|r| - 1] == Render(n / 10);
    }
  }

  /** Distinct numbers have distinct renderings. */
  lemma RenderInjective(a: nat, b: nat)
    requires Render(a) == Render(b)
    ensures a == b
  {
    RenderRoundTrip(a);
    RenderRoundTrip(b);
  }
}
