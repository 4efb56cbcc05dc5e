/** Printing numbers and bounded text as printf does. */
module Decimal {

  function Digit(d: nat): char
    requires d < 10
  {
    (d + '0' as int) as char
  }

  /** "%ld" of a number that is not negative. */
  function Dec(n: nat): (s: string)
    ensures |s| > 0
    ensures forall c | c in s :: '0' <= c <= '9'
    ensures n < 10 <==> |s| == 1
    ensures n < 100 <==> |s| <= 2
    ensures n < 1000 <==> |s| <= 3
    ensures n < 10000 <==> |s| <= 4
  {
    if n < 10 then [Digit(n)] else Dec(n / 10) + [Digit(n % 10)]
  }

  /** Different numbers print differently. */
  lemma {:induction false} DecInjective(a: nat, b: nat)
    requires Dec(a) == Dec(b)
    ensures a == b
  {
    if a >= 10 && b >= 10 {
      var x, y := Dec(a / 10) + [Digit(a % 10)], Dec(b / 10) + [Digit(b % 10)];
      assert x[..|x| - 1] == Dec(a / 10) && y[..|y| - 1] == Dec(b / 10);
      assert x[|x| - 1] == Digit(a % 10) && y[|y| - 1] == Digit(b % 10);
      DecInjective(a / 10, b / 10);
    } else {
      assert Dec(a)[0] == Dec(b)[0];
    }
  }

  /** What snprintf leaves of a text in a buffer of the given size. */
  function Fit(s: string, size: nat): (t: string)
    requires size > 0
    ensures |t| < size && t <= s
    ensures |s| < size ==> t == s
  {
    if |s| < size then s else s[..size - 1]
  }
}
