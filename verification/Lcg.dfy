/** The linear congruential walk under the PCG generator, modulo a power of two,
    and the proof that it visits every state exactly once per period. */
module Lcg {
  import opened Words
  import opened Counting
  import opened Arith

  const MULTIPLIER: nat := 6364136223846793005

  /** One move of the state, as the unsigned 64-bit multiply-and-add computes it. */
  function Step(state: u64, inc: u64): u64 {
    (state * MULTIPLIER + inc) % TWO64
  }

  /** The state after n moves. */
  function Walk(state: u64, inc: u64, n: nat): u64 {
    if n == 0 then state else Step(Walk(state, inc, n - 1), inc)
  }

  // ----- the walk in closed form -----

  /** 1 + m + m^2 + ... with n summands. */
  function Geo(n: nat): nat {
    if n == 0 then 0 else Geo(n - 1) * MULTIPLIER + 1
  }

  /** What one step of the walk is a multiple of; odd when inc is. */
  function Stride(state: nat, inc: nat): nat {
    (MULTIPLIER - 1) * state + inc
  }

  lemma StepOfResidue(x: nat, inc: u64)
    ensures Step(x % TWO64, inc) == (x * MULTIPLIER + inc) % TWO64
  {
    var q, y := x / TWO64, x % TWO64;
    assert x * MULTIPLIER + inc == TWO64 * (q * MULTIPLIER) + (y * MULTIPLIER + inc);
    ModShift(y * MULTIPLIER + inc, q * MULTIPLIER);
  }

  lemma ModShift(x: nat, k: nat)
    ensures (TWO64 * k + x) % TWO64 == x % TWO64
  {
  }

  lemma {:induction false} WalkClosedForm(state: u64, inc: u64, n: nat)
    ensures Walk(state, inc, n) == (state + Geo(n) * Stride(state, inc)) % TWO64
  {
    if n > 0 {
      hide Step, Stride;
      var g, k := Geo(n - 1), Stride(state, inc);
      WalkClosedForm(state, inc, n - 1);
      StepOfResidue(state + g * k, inc);
      StrideIs(state, inc);
      Affine(state, inc, MULTIPLIER, g, k);
    }
  }

  lemma StrideIs(state: nat, inc: nat)
    ensures Stride(state, inc) == (MULTIPLIER - 1) * state + inc
  {
  }

  lemma Affine(s: nat, c: nat, a: nat, g: nat, k: nat)
    requires k == (a - 1) * s + c
    ensures (s + g * k) * a + c == s + (g * a + 1) * k
  {
    calc {
      (s + g * k) * a + c;
      s * a + g * k * a + c;
      s + k + g * k * a;
      { assert g * k * a == g * a * k; }
      s + (g * a + 1) * k;
    }
  }

  lemma {:induction false} WalkAdd(state: u64, inc: u64, i: nat, j: nat)
    ensures Walk(state, inc, i + j) == Walk(Walk(state, inc, i), inc, j)
  {
    if j > 0 {
      WalkAdd(state, inc, i, j - 1);
    }
  }

  // ----- divisibility by powers of two -----

  lemma {:induction false} GeoAdd(m: nat, n: nat)
    ensures Geo(m + n) == Geo(m) * ((MULTIPLIER - 1) * Geo(n) + 1) + Geo(n)
  {
    if n > 0 {
      GeoAdd(m, n - 1);
      Telescope(Geo(m), MULTIPLIER, Geo(n - 1));
    }
  }

  lemma Telescope(x: nat, a: nat, g: nat)
    ensures (x * ((a - 1) * g + 1) + g) * a + 1 == x * ((a - 1) * (g * a + 1) + 1) + (g * a + 1)
  {
    var y := (a - 1) * g;
    calc {
      (x * (y + 1) + g) * a + 1;
      x * (y + 1) * a + g * a + 1;
      { assert x * (y + 1) * a == x * ((y + 1) * a); }
      x * ((y + 1) * a) + (g * a + 1);
      { assert (y + 1) * a == y * a + a; assert y * a == (a - 1) * (g * a); }
      x * ((a - 1) * (g * a) + a) + (g * a + 1);
      { assert (a - 1) * (g * a) + a == (a - 1) * (g * a + 1) + 1; }
      x * ((a - 1) * (g * a + 1) + 1) + (g * a + 1);
    }
  }

  lemma {:induction false} GeoParity(n: nat)
    ensures Geo(n) % 2 == n % 2
  {
    if n > 0 {
      GeoParity(n - 1);
      assert Geo(n) == 2 * (Geo(n - 1) * (MULTIPLIER / 2)) + Geo(n - 1) + 1;
    }
  }

  /** Half of the odd part that doubling the length contributes. */
  function Quarter(n: nat): nat {
    Geo(n) * (MULTIPLIER / 4)
  }

  /** Doubling the length doubles the sum, up to an odd factor: this is where
      the multiplier being 1 modulo 4 counts. */
  lemma GeoDouble(n: nat)
    ensures Geo(2 * n) == 2 * (Geo(n) * (2 * Quarter(n) + 1))
  {
    GeoAdd(n, n);
    assert MULTIPLIER - 1 == 4 * (MULTIPLIER / 4);
    assert (MULTIPLIER - 1) * Geo(n) == 4 * Quarter(n);
  }

  predicate Multiple(x: nat, k: nat) {
    x % Pow2(k) == 0
  }

  lemma HalfPower(x: nat, k: nat)
    requires k > 0
    ensures Multiple(2 * x, k) <==> Multiple(x, k - 1)
  {
    HalfModulus(x, Pow2(k - 1));
  }

  lemma HalfModulus(x: nat, p: nat)
    requires p > 0
    ensures (2 * x) % (2 * p) == 0 <==> x % p == 0
  {
    if x % p == 0 {
      assert 2 * x == (2 * p) * (x / p);
      MultipleMod(x / p, 2 * p);
    }
    if (2 * x) % (2 * p) == 0 {
      assert 2 * x == (2 * p) * ((2 * x) / (2 * p));
      assert x == p * ((2 * x) / (2 * p));
      MultipleMod((2 * x) / (2 * p), p);
    }
  }

  lemma {:induction false} OddFactor(x: nat, h: nat, k: nat)
    ensures Multiple(x * (2 * h + 1), k) <==> Multiple(x, k)
  {
    if k > 0 {
      hide Multiple;
      if x % 2 == 0 {
        var y := x / 2;
        TwiceTimes(y, 2 * h + 1);
        HalfPower(y * (2 * h + 1), k);
        HalfPower(y, k);
        OddFactor(y, h, k - 1);
        assert x == 2 * y;
      } else {
        OddNotMultiple(x, k);
        TimesOdd(x, h);
        OddNotMultiple(x * (2 * h + 1), k);
      }
    }
  }

  lemma TwiceTimes(y: nat, z: nat)
    ensures (2 * y) * z == 2 * (y * z)
  {
  }

  lemma TimesOdd(x: nat, h: nat)
    ensures x * (2 * h + 1) == 2 * (x * h) + x
  {
  }

  lemma OddNotMultiple(x: nat, k: nat)
    requires x % 2 == 1 && k > 0
    ensures !Multiple(x, k)
  {
    var p := Pow2(k);
    assert x == p * (x / p) + x % p;
    EvenTimes(Pow2(k - 1), x / p);
  }

  lemma EvenTimes(x: nat, y: nat)
    ensures (2 * x) * y % 2 == 0
  {
    TwiceTimes(x, y);
  }

  /** The sum of n powers is divisible by exactly those powers of two that
      divide n. */
  lemma {:induction false} GeoValuation(n: nat, k: nat)
    ensures Multiple(Geo(n), k) <==> Multiple(n, k)
    decreases k
  {
    if k > 0 {
      hide Multiple, Geo;
      if n % 2 == 0 {
        var m := n / 2;
        GeoDouble(m);
        HalfPower(Geo(m) * (2 * Quarter(m) + 1), k);
        OddFactor(Geo(m), Quarter(m), k - 1);
        GeoValuation(m, k - 1);
        HalfPower(m, k);
      } else {
        GeoParity(n);
        OddNotMultiple(n, k);
        OddNotMultiple(Geo(n), k);
      }
    }
  }

  // ----- the full period -----

  /** The walk is back where it started after n moves exactly when n is a
      multiple of 2^64. */
  lemma Returns(state: u64, inc: u64, n: nat)
    requires inc % 2 == 1
    ensures Walk(state, inc, n) == state <==> n % TWO64 == 0
  {
    var k := Stride(state, inc);
    assert k == 2 * ((MULTIPLIER / 2) * state + inc / 2) + 1;
    WalkClosedForm(state, inc, n);
    Pow2Words();
    GeoValuation(n, 64);
    OddFactor(Geo(n), (MULTIPLIER / 2) * state + inc / 2, 64);
    SameResidue(state, Geo(n) * k);
  }

  lemma SameResidue(x: u64, d: nat)
    ensures (x + d) % TWO64 == x <==> d % TWO64 == 0
  {
  }

  lemma Distinct(state: u64, inc: u64, i: nat, j: nat)
    requires inc % 2 == 1
    requires i < j < TWO64
    ensures Walk(state, inc, i) != Walk(state, inc, j)
  {
    hide Walk;
    WalkAdd(state, inc, i, j - i);
    Returns(Walk(state, inc, i), inc, j - i);
  }

  /** The walk as a map from the number of moves to the state reached. */
  ghost function Path(state: u64, inc: u64): nat -> nat {
    n => Walk(state, inc, n)
  }

  lemma PathInjective(state: u64, inc: u64)
    requires inc % 2 == 1
    ensures Injective(Below(TWO64), Path(state, inc))
  {
    hide Walk, Below;
    var f := Path(state, inc);
    forall i, j | i in Below(TWO64) && j in Below(TWO64) && f(i) == f(j) ensures i == j {
      if i < j {
        Distinct(state, inc, i, j);
      } else if j < i {
        Distinct(state, inc, j, i);
      }
    }
  }

  lemma PathOnto(state: u64, inc: u64)
    requires inc % 2 == 1
    ensures Image(Below(TWO64), Path(state, inc)) == Below(TWO64)
  {
    hide Walk, Below, Injective;
    PathInjective(state, inc);
    InjectiveIsOnto(TWO64, Path(state, inc));
  }

  /** Full period: every state is reached from every state, in fewer than 2^64
      moves and by no other such number of moves. */
  lemma FullPeriod(state: u64, inc: u64, target: u64) returns (n: nat)
    requires inc % 2 == 1
    ensures n < TWO64 && Walk(state, inc, n) == target
    ensures forall m: nat :: m < TWO64 && Walk(state, inc, m) == target ==> m == n
  {
    hide Walk, Below, Injective, Image;
    PathOnto(state, inc);
    n := Reached(TWO64, Path(state, inc), target);
    forall m: nat | m < TWO64 && Walk(state, inc, m) == target ensures m == n {
      if m < n {
        Distinct(state, inc, m, n);
      } else if n < m {
        Distinct(state, inc, n, m);
      }
    }
  }
}
