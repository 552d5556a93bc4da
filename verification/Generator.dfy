/** The congruential generator of the user tasks (init.c), with modulus 2^30. */
module Generator {
  import opened Arithmetic

  const MODULUS: nat := 0x4000_0000

  function Next(x: nat): nat {
    (1103515245 * x + 12345) % 0x4000_0000
  }

  /** The seed after n rounds. */
  function Seed(x: nat, n: nat): nat {
    if n == 0 then x else Next(Seed(x, n - 1))
  }

  lemma SeedInRange(x: nat, n: nat)
    requires x < MODULUS
    ensures Seed(x, n) < MODULUS
  {
  }

  /** No intermediate value leaves the range of int64_t. */
  lemma NoOverflow(x: nat)
    requires x < MODULUS
    ensures 1103515245 * x + 12345 < 0x8000_0000_0000_0000
  {
  }

  // --- The geometric sum 1 + a + ... + a^(n-1) behind n rounds ---

  ghost function Geometric(a: nat, n: nat): nat {
    if n == 0 then 0 else a * Geometric(a, n - 1) + 1
  }

  lemma GeometricAlgebra(a: int, g: int, h: int)
    ensures a * (g + h + (a - 1) * (g * h)) + 1 == (a * g + 1) + h + (a - 1) * ((a * g + 1) * h)
  {
  }

  lemma {:induction false} GeometricAdd(a: nat, m: nat, n: nat)
    ensures Geometric(a, m + n) == Geometric(a, m) + Geometric(a, n) + (a - 1) * (Geometric(a, m) * Geometric(a, n))
    decreases m
  {
    if m > 0 {
      GeometricAdd(a, m - 1, n);
      GeometricAlgebra(a, Geometric(a, m - 1), Geometric(a, n));
    }
  }

  lemma SeedAlgebra(a: int, c: int, x: int, g: int, k: int, m: int)
    ensures a * (x + g * ((a - 1) * x + c) - k * m) + c == x + (a * g + 1) * ((a - 1) * x + c) - (a * k) * m
  {
  }

  /** n rounds move the seed by the geometric sum times (A-1)x + C, up to a multiple of the modulus. */
  lemma {:induction false} SeedMoves(x: nat, n: nat) returns (k: int)
    requires x < MODULUS
    ensures Seed(x, n) + k * 0x4000_0000 == x + Geometric(1103515245, n) * (1103515244 * x + 12345)
  {
    if n == 0 {
      k := 0;
    } else {
      var j := SeedMoves(x, n - 1);
      var s, g := Seed(x, n - 1), Geometric(1103515245, n - 1);
      SeedAlgebra(1103515245, 12345, x, g, j, 0x4000_0000);
      k := 1103515245 * j + (1103515245 * s + 12345) / 0x4000_0000;
    }
  }

  // --- Divisibility by powers of two ---

  /** 2^j divides x: it can be halved j times. */
  predicate Halves(j: nat, x: nat) {
    j == 0 || (x % 2 == 0 && Halves(j - 1, x / 2))
  }

  lemma ProductParity(x: nat, odd: nat)
    requires odd % 2 == 1
    ensures (x * odd) % 2 == x % 2
    ensures x % 2 == 0 ==> (x * odd) / 2 == x / 2 * odd
  {
    var b, h := odd / 2, x / 2;
    assert odd == 2 * b + 1;
    assert x * odd == 2 * (x * b) + x;
    if x % 2 == 0 {
      assert x == 2 * h;
      assert (2 * h) * odd == 2 * (h * odd);
    }
  }

  /** An odd factor does not matter. */
  lemma {:induction false} OddFactor(j: nat, x: nat, odd: nat)
    requires odd % 2 == 1
    ensures Halves(j, x * odd) <==> Halves(j, x)
    decreases j
  {
    ProductParity(x, odd);
    if j > 0 && x % 2 == 0 {
      OddFactor(j - 1, x / 2, odd);
    }
  }

  lemma ParitySucc(p: nat, g: nat, n: nat)
    requires p % 2 == g % 2 && n > 0 && g % 2 == (n - 1) % 2
    ensures (p + 1) % 2 == n % 2
  {
  }

  lemma ParityStep(a: nat, g: nat, n: nat)
    requires a % 2 == 1 && n > 0 && g % 2 == (n - 1) % 2
    ensures (a * g + 1) % 2 == n % 2
  {
    ProductParity(g, a);
    MulComm(a, g);
    ParitySucc(a * g, g, n);
  }

  lemma {:induction false} GeometricParity(a: nat, n: nat)
    requires a % 2 == 1
    ensures Geometric(a, n) % 2 == n % 2
  {
    if n > 0 {
      GeometricParity(a, n - 1);
      ParityStep(a, Geometric(a, n - 1), n);
    }
  }

  lemma MulComm(x: int, y: int)
    ensures x * y == y * x
  {
  }

  lemma DoublingAlgebra(b: nat, g: nat)
    ensures g + g + 4 * b * (g * g) == 2 * (g * (1 + 2 * (b * g)))
  {
    assert g * (1 + 2 * (b * g)) == g + 2 * (g * (b * g));
    assert g * (b * g) == b * (g * g);
  }

  /** The sum of 2h terms is twice the sum of h terms, times an odd number. */
  lemma GeometricDouble(a: nat, h: nat) returns (odd: nat)
    requires a % 4 == 1
    ensures odd % 2 == 1 && Geometric(a, 2 * h) == 2 * (Geometric(a, h) * odd)
  {
    GeometricAdd(a, h, h);
    DoublingAlgebra(a / 4, Geometric(a, h));
    odd := 1 + 2 * (a / 4 * Geometric(a, h));
  }

  lemma HalfOfDouble(j: nat, x: nat, h: nat)
    requires j > 0 && x == 2 * h
    ensures Halves(j, x) <==> Halves(j - 1, h)
  {
  }

  lemma EvenTerms(a: nat, j: nat, n: nat)
    requires a % 4 == 1 && j > 0 && n % 2 == 0
    ensures Halves(j, Geometric(a, n)) <==> Halves(j - 1, Geometric(a, n / 2))
  {
    var odd := GeometricDouble(a, n / 2);
    HalfOfDouble(j, Geometric(a, n), Geometric(a, n / 2) * odd);
    OddFactor(j - 1, Geometric(a, n / 2), odd);
  }

  /** A function that keeps parity, and whose even values halve with their arguments, keeps the powers
      of two that divide its argument. */
  lemma {:induction false} HalvesCarry(f: nat -> nat, j: nat, n: nat)
    requires forall m: nat :: f(m) % 2 == m % 2
    requires forall i: nat, m: nat :: i > 0 && m % 2 == 0 ==> (Halves(i, f(m)) <==> Halves(i - 1, f(m / 2)))
    ensures Halves(j, f(n)) <==> Halves(j, n)
    decreases j
  {
    if j > 0 && n % 2 == 0 {
      HalvesCarry(f, j - 1, n / 2);
      HalfOfDouble(j, n, n / 2);
    }
  }

  /** For a multiplier of the form 4b+1, n terms are divisible by the powers of two that divide n. */
  lemma GeometricHalves(a: nat, j: nat, n: nat)
    requires a % 4 == 1
    ensures Halves(j, Geometric(a, n)) <==> Halves(j, n)
  {
    var f: nat -> nat := m => Geometric(a, m);
    forall m: nat ensures f(m) % 2 == m % 2 {
      GeometricParity(a, m);
    }
    forall i: nat, m: nat | i > 0 && m % 2 == 0 ensures Halves(i, f(m)) <==> Halves(i - 1, f(m / 2)) {
      EvenTerms(a, i, m);
    }
    HalvesCarry(f, j, n);
  }

  // --- The period ---

  lemma ModDouble(x: nat, p: nat)
    requires p >= 1
    ensures x % (2 * p) == 2 * (x / 2 % p) + x % 2
  {
    var q, r := x / 2 / p, x / 2 % p;
    assert x / 2 == p * q + r;
    assert x == (2 * p) * q + (2 * r + x % 2);
    DivModUnique(x, 2 * p, q, 2 * r + x % 2);
  }

  lemma {:induction false} HalvesExactly(j: nat, x: nat)
    ensures Pow2(j) >= 1 && (Halves(j, x) <==> x % Pow2(j) == 0)
    decreases j
  {
    Pow2Positive(j);
    if j > 0 {
      HalvesExactly(j - 1, x / 2);
      ModDouble(x, Pow2(j - 1));
    }
  }

  lemma HalvesModulus(x: nat)
    ensures Halves(30, x) <==> x % 0x4000_0000 == 0
  {
    HalvesExactly(30, x);
    Pow2Add(15, 15);
    assert Pow2(15) == 32768;
  }

  lemma SameResidue(s: nat, x: nat, k: int, moved: nat)
    requires s < 0x4000_0000 && x < 0x4000_0000 && s + k * 0x4000_0000 == x + moved
    ensures s == x <==> moved % 0x4000_0000 == 0
  {
  }

  lemma MovedHalves(n: nat, odd: nat)
    requires odd % 2 == 1
    ensures Halves(30, Geometric(1103515245, n) * odd) <==> Halves(30, n)
  {
    OddFactor(30, Geometric(1103515245, n), odd);
    GeometricHalves(1103515245, 30, n);
  }

  lemma OddStep(x: nat) returns (odd: nat)
    ensures odd == 1103515244 * x + 12345 && odd % 2 == 1
  {
    odd := 1103515244 * x + 12345;
    DivModUnique(odd, 2, 551757622 * x + 6172, 1);
  }

  /** The distance n rounds move the seed is a multiple of 2^30 exactly when n is. */
  lemma DistanceMoved(x: nat, n: nat) returns (k: int, moved: nat)
    requires x < MODULUS
    ensures Seed(x, n) + k * 0x4000_0000 == x + moved
    ensures Halves(30, moved) <==> Halves(30, n)
  {
    var odd := OddStep(x);
    k := SeedMoves(x, n);
    moved := Geometric(1103515245, n) * odd;
    MovedHalves(n, odd);
  }

  /** n rounds return to the seed exactly when 2^30 divides n. */
  lemma ReturnsExactly(x: nat, n: nat)
    requires x < MODULUS
    ensures Seed(x, n) == x <==> n % 0x4000_0000 == 0
  {
    var k, moved := DistanceMoved(x, n);
    SeedInRange(x, n);
    SameResidue(Seed(x, n), x, k, moved);
    HalvesModulus(moved);
    HalvesModulus(n);
  }

  lemma {:induction false} SeedAdd(x: nat, m: nat, n: nat)
    ensures Seed(x, m + n) == Seed(Seed(x, m), n)
    decreases n
  {
    if n > 0 {
      SeedAdd(x, m, n - 1);
      assert m + n - 1 == m + (n - 1);
    }
  }

  /** No residue comes twice within 2^30 rounds. */
  lemma NoRepeat(x: nat, i: nat, j: nat)
    requires x < MODULUS && i < j
    ensures Seed(x, i) == Seed(x, j) <==> (j - i) % 0x4000_0000 == 0
  {
    SeedAdd(x, i, j - i);
    SeedInRange(x, i);
    ReturnsExactly(Seed(x, i), j - i);
  }

  /** From every start the generator visits every residue within 2^30 rounds. */
  lemma FullPeriod(x: nat, r: nat)
    requires x < MODULUS && r < MODULUS
    ensures exists i: nat :: i < MODULUS && Seed(x, i) == r
  {
    if forall k: nat :: k < MODULUS ==> Seed(x, k) != r {
      var q := seq(MODULUS, (k: nat) => Seed(x, k));
      forall a, b | 0 <= a < b < |q| ensures q[a] != q[b] {
        NoRepeat(x, a, b);
      }
      forall k: nat | k < MODULUS ensures q[k] < MODULUS && q[k] != r {
        SeedInRange(x, k);
      }
      Pigeonhole(q, MODULUS, r);
    }
  }

  // --- user_task ---

  /** The start seed of a process; pids are below 128. */
  function StartSeed(pid: nat): nat {
    (pid + 42) * 1000
  }

  /** Every seed comes from the one before by the generator's constants. */
  lemma SeedRecurrence(x: nat, n: nat)
    ensures Seed(x, 0) == x && Seed(x, n + 1) == (1103515245 * Seed(x, n) + 12345) % 0x4000_0000
  {
  }

  /** The first rounds of user_task: the seed starts at 1000 times the pid plus 42000, and each round
      draws the next one and asks SYSCALL_SLEEP for its last four digits. */
  method UserTask(pid: nat, rounds: nat) returns (requests: seq<nat>, ghost seeds: seq<nat>)
    requires pid < 128
    ensures |requests| == rounds && |seeds| == rounds + 1 && seeds[0] == 1000 * pid + 42000
    ensures forall k :: 0 <= k < rounds ==> seeds[k + 1] == (1103515245 * seeds[k] + 12345) % 0x4000_0000
    ensures forall k :: 0 <= k < rounds ==> requests[k] == seeds[k + 1] % 10000
    ensures forall k :: 0 <= k < rounds ==> requests[k] == Seed(StartSeed(pid), k + 1) % 10000
  {
    var seed := (pid + 42) * 1000;
    requests, seeds := [], [seed];
    for i := 0 to rounds
      invariant |requests| == i && |seeds| == i + 1 && seeds[0] == 1000 * pid + 42000 && seed == seeds[i] < MODULUS
      invariant seed == Seed(StartSeed(pid), i)
      invariant forall k :: 0 <= k < i ==> seeds[k + 1] == (1103515245 * seeds[k] + 12345) % 0x4000_0000
      invariant forall k :: 0 <= k < i ==> requests[k] == seeds[k + 1] % 10000
      invariant forall k :: 0 <= k < i ==> requests[k] == Seed(StartSeed(pid), k + 1) % 10000
    {
      seed := (1103515245 * seed + 12345) % 0x4000_0000;
      requests, seeds := requests + [seed % 10000], seeds + [seed];
    }
  }
}
