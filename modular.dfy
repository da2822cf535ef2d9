/** Facts about `%` on naturals that the cyclic key rotations rely on. */
module Modular {

  lemma {:induction false} MulMono(a: int, b: int, n: int)
    requires n > 0 && a <= b
    ensures a * n <= b * n
    decreases b - a
  {
    if a < b {
      MulMono(a + 1, b, n);
      assert (a + 1) * n == a * n + n;
    }
  }

  /** The remainder is determined by any decomposition `x == q * n + r`. */
  lemma ModUnique(x: int, n: int, q: int, r: int)
    requires n > 0 && 0 <= r < n && x == q * n + r
    ensures x % n == r
  {
    var q2, r2 := x / n, x % n;
    assert x == q2 * n + r2;
    assert (q + 1) * n == q * n + n && (q2 + 1) * n == q2 * n + n;
    if q < q2 {
      MulMono(q + 1, q2, n);
    } else if q2 < q {
      MulMono(q2 + 1, q, n);
    }
  }

  /** Stepping a reduced index is stepping the unreduced one. */
  lemma ModStep(a: nat, n: nat)
    requires n > 0
    ensures (a % n + 1) % n == (a + 1) % n
  {
    var q, r := a / n, a % n;
    assert a == q * n + r;
    if r + 1 < n {
      ModUnique(r + 1, n, 0, r + 1);
      ModUnique(a + 1, n, q, r + 1);
    } else {
      assert r + 1 == 1 * n + 0;
      ModUnique(r + 1, n, 1, 0);
      assert a + 1 == (q + 1) * n + 0;
      ModUnique(a + 1, n, q + 1, 0);
    }
  }

  /** Whole cycles vanish. */
  lemma MultipleMod(i: nat, q: nat, n: nat)
    requires n > 0 && i < n
    ensures (i + q * n) % n == i
  {
    ModUnique(i + q * n, n, q, i);
  }
}
