/** The decimal rendering of a length, as Rust's `Display` for `usize`
    writes it inside `format!`, and the reading of such a rendering back
    into a number. */
module Decimal {

  predicate IsDigit(c: char) {
    '0' <= c <= '9'
  }

  predicate AllDigits(s: string) {
    forall i :: 0 <= i < |s| ==> IsDigit(s[i])
  }

  /** A canonical decimal numeral: at least one digit, no leading zero
      except for "0" itself. */
  predicate IsCanonical(s: string) {
    |s| > 0 && AllDigits(s) && (s[0] == '0' ==> |s| == 1)
  }

  function DigitValue(c: char): (d: nat)
    requires IsDigit(c)
    ensures d < 10
  {
    c as int - '0' as int
  }

  function DigitChar(d: nat): (c: char)
    requires d < 10
    ensures IsDigit(c) && DigitValue(c) == d
  {
    ('0' as int + d) as char
  }

  /** Renders `n` in base ten, most significant digit first. */
  function Render(n: nat): (s: string)
    ensures IsCanonical(s)
    ensures s[0] == '0' <==> n == 0
  {
    if n < 10 then [DigitChar(n)] else Render(n / 10) + [DigitChar(n % 10)]
  }

  /** Reads a string of digits as a base-ten number. */
  function Parse(s: string): (n: nat)
    requires AllDigits(s)
  {
    if s == [] then 0 else Parse(s[..|s| - 1]) * 10 + DigitValue(s[|s| - 1])
  }

  /** Reading back a rendering gives the number rendered. */
  lemma {:induction false} ParseRender(n: nat)
    ensures Parse(Render(n)) == n
  {
    var s := Render(n);
    if n < 10 {
      assert s[..|s| - 1] == [];
    } else {
      assert s[..|s| - 1] == Render(n / 10);
      ParseRender(n / 10);
    }
  }

  /** Every canonical numeral is the rendering of the number it denotes,
      so `Render` is a bijection between naturals and canonical numerals. */
  lemma {:induction false} RenderParse(s: string)
    requires IsCanonical(s)
    ensures Render(Parse(s)) == s
  {
    var last := s[|s| - 1];
    var p := s[..|s| - 1];
    if |s| == 1 {
      assert p == [];
      assert DigitChar(DigitValue(last)) == last;
    } else {
      assert IsCanonical(p) by { assert p[0] == s[0]; }
      RenderParse(p);
      // Parse(p) cannot be 0: Render(0) is "0", whose first digit is '0'
      assert Parse(p) != 0 by { assert Render(Parse(p))[0] == s[0]; }
      var n := Parse(s);
      assert n / 10 == Parse(p) && n % 10 == DigitValue(last);
      assert DigitChar(DigitValue(last)) == last;
      assert Render(n) == p + [last];
      assert p + [last] == s;
    }
  }

  /** Distinct numbers have distinct renderings. */
  lemma RenderInjective(m: nat, n: nat)
    requires Render(m) == Render(n)
    ensures m == n
  {
    ParseRender(m);
    ParseRender(n);
  }
}
