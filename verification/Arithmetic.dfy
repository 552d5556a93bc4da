/** Facts about division by a variable, powers of two and counting. */
module Arithmetic {
  lemma DivModUnique(x: int, n: int, q: int, r: int)
    requires 0 <= r < n && x == n * q + r
    ensures x / n == q && x % n == r
  {
    var d := q - x / n;
    assert n * d == x % n - r;
    if d >= 1 {
      MulAtLeast(n, d);
    } else if d <= -1 {
      MulAtLeast(n, -d);
    }
  }

  lemma MulAtLeast(n: int, d: int)
    requires n >= 0 && d >= 1
    ensures n * d >= n
  {
  }

  /** Adding the divisor once leaves the remainder alone. */
  lemma ModPlus(x: int, n: int)
    requires n > 0
    ensures (x + n) % n == x % n
  {
    assert x + n == n * (x / n + 1) + x % n;
    DivModUnique(x + n, n, x / n + 1, x % n);
  }

  /** A multiple of the divisor added or taken away leaves the remainder alone. */
  lemma ModPlusMultiple(x: int, n: int, k: int)
    requires n > 0
    ensures (x + n * k) % n == x % n
  {
    assert x + n * k == n * (x / n + k) + x % n;
    DivModUnique(x + n * k, n, x / n + k, x % n);
  }

  ghost function Pow2(k: nat): nat {
    if k == 0 then 1 else 2 * Pow2(k - 1)
  }

  lemma {:induction false} Pow2Positive(k: nat)
    ensures Pow2(k) >= 1
  {
    if k > 0 {
      Pow2Positive(k - 1);
    }
  }

  lemma {:induction false} Pow2Add(a: nat, b: nat)
    ensures Pow2(a + b) == Pow2(a) * Pow2(b)
    decreases a
  {
    if a > 0 {
      Pow2Add(a - 1, b);
    }
  }

  ghost predicate AllDistinct(q: seq<nat>) {
    forall i, j :: 0 <= i < j < |q| ==> q[i] != q[j]
  }

  lemma WithoutIndex(q: seq<nat>, k: nat)
    requires k < |q| && AllDistinct(q)
    ensures AllDistinct(q[..k] + q[k + 1..])
    ensures forall x :: x in q[..k] + q[k + 1..] ==> x in q && x != q[k]
  {
  }

  lemma {:induction false} DistinctBelow(q: seq<nat>, n: nat)
    requires AllDistinct(q)
    requires forall x :: x in q ==> x < n
    ensures |q| <= n
    decreases n
  {
    if n == 0 {
      assert forall i :: 0 <= i < |q| ==> q[i] in q;
    } else if n - 1 in q {
      var k :| 0 <= k < |q| && q[k] == n - 1;
      var rest := q[..k] + q[k + 1..];
      WithoutIndex(q, k);
      forall x | x in rest ensures x < n - 1 {
        assert x in q && x != q[k];
      }
      DistinctBelow(rest, n - 1);
    } else {
      DistinctBelow(q, n - 1);
    }
  }

  /** Distinct numbers below n that all avoid one number below n are fewer than n. */
  lemma Pigeonhole(q: seq<nat>, n: nat, missed: nat)
    requires AllDistinct(q) && missed < n
    requires forall x :: x in q ==> x < n && x != missed
    ensures |q| <= n - 1
  {
    var r := q + [missed];
    assert forall i :: 0 <= i < |q| ==> q[i] in q;
    DistinctBelow(r, n);
  }
}
