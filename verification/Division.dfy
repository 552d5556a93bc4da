/** lib/gcc.c: 64-bit division by shifting and subtracting. */
module Division {
  import opened Arithmetic
  import opened Machine

  /** Division by zero traps; otherwise the quotient and the remainder come back. */
  datatype Outcome = Trap | Quotient(quot: u64, rem: u64)

  lemma ProductBound(den: nat, q: nat)
    requires den >= 1
    ensures q <= den * q
  {
  }

  lemma ProductHalves(den: nat, q: nat)
    ensures den * (2 * q) == 2 * (den * q)
  {
  }

  /** d is den shifted left k times, and qbit is 1 shifted as often. */
  ghost predicate Shifted(den: nat, d: nat, qbit: nat, k: nat) {
    qbit == Pow2(k) && d == den * qbit
  }

  lemma ShiftLeft(den: nat, d: nat, qbit: nat, k: nat)
    requires den >= 1 && Shifted(den, d, qbit, k)
    ensures Shifted(den, 2 * d, 2 * qbit, k + 1) && qbit <= d
  {
    ProductHalves(den, qbit);
    ProductBound(den, qbit);
  }

  lemma ShiftRight(den: nat, d: nat, qbit: nat, k: nat)
    requires Shifted(den, d, qbit, k)
    ensures k > 0 ==> d % 2 == 0 == qbit % 2 && qbit >= 2 && Shifted(den, d / 2, qbit / 2, k - 1)
    ensures k == 0 ==> d == den && qbit == 1
  {
    if k > 0 {
      var half := Pow2(k - 1);
      Pow2Positive(k - 1);
      ProductHalves(den, half);
      Half(qbit, half);
      Half(d, den * half);
    }
  }

  lemma Half(x: nat, h: nat)
    requires x == 2 * h
    ensures x % 2 == 0 && x / 2 == h
  {
  }

  /** The part of num divided so far is quot times den. */
  ghost predicate Accounted(num: nat, den: nat, n: nat, quot: nat) {
    num == quot * den + n
  }

  lemma Subtract(num: nat, den: nat, n: nat, d: nat, quot: nat, qbit: nat)
    requires den >= 1 && Accounted(num, den, n, quot) && d == den * qbit && d <= n
    ensures Accounted(num, den, n - d, quot + qbit) && quot + qbit <= num
  {
    assert (quot + qbit) * den == quot * den + qbit * den;
    ProductBound(den, quot + qbit);
  }

  /** Left-justifies the divisor; no bit is lost, because it doubles only while its top bit is clear. */
  method LeftJustify(den: u64) returns (d: u64, qbit: u64, ghost k: nat)
    requires den != 0
    ensures Shifted(den, d, qbit, k) && d >= 0x8000_0000_0000_0000
  {
    d, qbit, k := den, 1, 0;
    while d < 0x8000_0000_0000_0000
      invariant Shifted(den, d, qbit, k) && d >= 1
      decreases 0x1_0000_0000_0000_0000 - d
    {
      ShiftLeft(den, d, qbit, k);
      d := Wrap64(2 * d as int);
      qbit := Wrap64(2 * qbit as int);
      k := k + 1;
    }
  }

  method UDivMod(num: u64, den: u64) returns (r: Outcome)
    ensures den == 0 ==> r == Trap
    ensures den != 0 ==> r == Quotient(num / den, num % den)
  {
    if den == 0 {
      return Trap;
    }
    var n: u64, quot: u64 := num, 0;
    ghost var k: nat;
    var d: u64, qbit: u64;
    d, qbit, k := LeftJustify(den);
    while qbit != 0
      invariant Accounted(num, den, n, quot)
      invariant qbit != 0 ==> Shifted(den, d, qbit, k) && n < 2 * d
      invariant qbit == 0 ==> n < den
      decreases qbit
    {
      if d <= n {
        Subtract(num, den, n, d, quot, qbit);
        n := n - d;
        quot := Wrap64(quot as int + qbit);
      }
      ShiftRight(den, d, qbit, k);
      d := d / 2;
      qbit := qbit / 2;
      k := if k > 0 then k - 1 else 0;
    }
    DivModUnique(num, den, quot, n);
    r := Quotient(quot, n);
  }
}
