/** Positions of a counter modulo a length. */
module Modular {
  /** How many values a 64-bit counter has. */
  const COUNTERS: int := 0x1_0000_0000_0000_0000

  /** Quotient and remainder are what a number decomposes into. */
  lemma DivMod(x: int, q: int, r: int, n: int)
    requires x == q * n + r && 0 <= r < n
    ensures x / n == q && x % n == r
  {
    var d, r' := q - x / n, x % n;
    assert d * n == r' - r;
    if d >= 1 {
      AtLeast(d, n);
    } else if d <= -1 {
      AtLeast(-d, n);
    }
  }

  lemma {:induction false} AtLeast(d: int, n: int)
    requires d >= 1 && n > 0
    ensures d * n >= n
    decreases d
  {
    if d > 1 {
      AtLeast(d - 1, n);
      assert (d - 1) * n == d * n - n;
    }
  }

  lemma Distribute(q: int, q': int, n: int)
    ensures (q + q') * n == q * n + q' * n
  {
  }

  lemma SumOf(a: nat, b: nat, n: nat)
    requires n > 0
    ensures var (q, r) := (a / n + b / n, a % n + b % n);
            && (r < n ==> (a + b) / n == q && (a + b) % n == r)
            && (r >= n ==> (a + b) / n == q + 1 && (a + b) % n == r - n)
  {
    var qa, qb, ra, rb := a / n, b / n, a % n, b % n;
    assert a == qa * n + ra && b == qb * n + rb;
    Distribute(qa, qb, n);
    Distribute(qa + qb, 1, n);
    if ra + rb < n {
      DivMod(a + b, qa + qb, ra + rb, n);
    } else {
      DivMod(a + b, qa + qb + 1, ra + rb - n, n);
    }
  }

  /** The position `i` steps on. */
  lemma StepsOn(c: nat, i: nat, n: nat)
    requires i < n
    ensures (c + i) % n == if c % n + i < n then c % n + i else c % n + i - n
  {
    DivMod(i, 0, i, n);
    SumOf(c, i, n);
  }

  /** The position after that of counter `c`. */
  lemma NextPosition(c: nat, n: nat)
    requires n > 0
    ensures (c + 1) % n == (c % n + 1) % n
  {
    DivMod(c % n, 0, c % n, n);
    SumOf(c, 1, n);
    SumOf(c % n, 1, n);
  }
}
