/** The few facts about products, quotients and remainders the other modules need. */
module Arith {
  lemma {:induction false} MulLe(a: int, b: int, c: int)
    requires a <= b && c >= 0
    ensures a * c <= b * c
  {
    assert (b - a) * c >= 0;
  }

  lemma {:induction false} MulDiff(a: int, b: int, c: int)
    ensures (a - b) * c == a * c - b * c
  {
  }

  lemma {:induction false} MulAssoc(a: int, b: int, c: int)
    ensures a * b * c == a * (b * c)
  {
  }

  /** Consecutive products, and how far they stay below a later one. */
  lemma {:induction false} MulNext(k: int, t: int, c: int)
    requires c >= 0 && k < t
    ensures (k + 1) * c == k * c + c && (k + 1) * c <= t * c
  {
    MulLe(k + 1, t, c);
    MulDiff(k + 1, 1, c);
  }

  /** A multiple of `m` is zero or at least `m` away from zero. */
  lemma {:induction false} MultipleIsLarge(d: int, m: int)
    requires m >= 0
    ensures d >= 1 ==> d * m >= m
    ensures d <= -1 ==> d * m <= -m
  {
    if d >= 1 {
      MulLe(1, d, m);
    } else if d <= -1 {
      MulLe(d, -1, m);
    }
  }

  lemma {:induction false} DivMod(x: int, c: int)
    requires c > 0
    ensures x == x / c * c + x % c && 0 <= x % c < c
  {
    assert x == c * (x / c) + x % c;
  }

  /** Quotient and remainder are the only pair that fits. */
  lemma {:induction false} DivModUnique(x: int, q: int, r: int, c: int)
    requires c > 0 && x == q * c + r && 0 <= r < c
    ensures x / c == q && x % c == r
  {
    DivMod(x, c);
    MulDiff(q, x / c, c);
    MultipleIsLarge(q - x / c, c);
  }
}
