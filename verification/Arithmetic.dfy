// Arithmetic that several modules share.

module Arithmetic {
  function Min(a: int, b: int): int { if a < b then a else b }
  function Max(a: int, b: int): int { if a < b then b else a }

  lemma {:induction false} MulLessOrEqual(a: int, b: int, d: nat)
    requires a <= b
    ensures a * d <= b * d
    decreases b - a
  {
    if a < b {
      MulLessOrEqual(a, b - 1, d);
      assert b * d == (b - 1) * d + d;
    }
  }

  lemma MulLess(a: int, b: int, d: nat)
    requires 0 < d
    ensures a < b <==> a * d + d <= b * d
    ensures a <= b <==> a * d <= b * d
  {
    if a < b {
      MulLessOrEqual(a + 1, b, d);
    } else if b < a {
      MulLessOrEqual(b + 1, a, d);
    }
  }

  lemma DivMod(x: int, d: nat)
    requires 0 < d
    ensures x == (x / d) * d + x % d && 0 <= x % d < d
    ensures 0 <= x ==> 0 <= x / d
  {
  }
}
