/** Amounts as 64-bit decimals: adding them rounds to sixteen digits. */
module Amounts {
  import opened Arith
  import opened Bcd
  import opened Decimal

  /** A decimal by its value: a number of units of 10^-398, the smallest step there
      is, or one of the values beyond. */
  datatype Amount = Num(n: int) | Inf(neg: bool) | NaN

  const ZERO := Num(0)

  // ----- rounding to sixteen digits -----

  const SIXTEEN: nat := 1_0000_0000_0000_0000

  /** How many digits a number has beyond sixteen. */
  function Excess(n: nat): nat {
    if n < SIXTEEN then 0 else 1 + Excess(n / 10)
  }

  /** n in steps of p, rounded to the nearest and to even on a tie. */
  function HalfEven(n: nat, p: nat): nat
    requires p > 0
  {
    var q, r := n / p, n % p;
    if 2 * r < p || (2 * r == p && q % 2 == 0) then q else q + 1
  }

  function RoundNat(n: nat): nat {
    HalfEven(n, Pow10(Excess(n))) * Pow10(Excess(n))
  }

  /** Past the largest coefficient at the largest exponent. */
  function Limit(): nat {
    Pow10(783)
  }

  function Round(n: int): Amount {
    var r: int := RoundNat(Abs(n));
    if r >= Limit() then Inf(n < 0) else Num(if n < 0 then 0 - r else r)
  }

  /** Adding, with what the standard says about infinities. */
  function Add(a: Amount, b: Amount): Amount {
    if a.NaN? || b.NaN? then NaN
    else if a.Inf? && b.Inf? then if a.neg == b.neg then a else NaN
    else if a.Inf? then a
    else if b.Inf? then b
    else Round(a.n + b.n)
  }

  function Negated(a: Amount): Amount {
    match a
    case Num(n) => Num(-n)
    case Inf(neg) => Inf(!neg)
    case NaN => NaN
  }

  // ----- which numbers need no rounding -----

  /** At most sixteen digits, and zeros. */
  ghost predicate Fits(n: nat) {
    exists c, k: nat {:trigger c * Pow10(k)} :: 0 <= c < SIXTEEN && n == c * Pow10(k)
  }

  lemma PowSixteen()
    ensures Pow10(16) == SIXTEEN && Pow10(15) * 10 == SIXTEEN
  {
    assert Pow10(4) == 1_0000;
    assert Pow10(8) == 1_0000_0000;
    assert Pow10(12) == 1_0000_0000_0000;
  }

  lemma {:induction false} ExcessIs(n: nat)
    ensures n < SIXTEEN * Pow10(Excess(n))
    ensures Excess(n) > 0 ==> n >= 1000_0000_0000_0000 * Pow10(Excess(n))
  {
    if n >= SIXTEEN {
      ExcessIs(n / 10);
      var p := Pow10(Excess(n / 10));
      assert Pow10(Excess(n)) == 10 * p;
      if Excess(n / 10) == 0 {
        assert Pow10(0) == 1;
      }
    } else {
      assert Pow10(0) == 1;
    }
  }

  lemma PowGrows(j: nat, k: nat)
    requires j <= k
    ensures Pow10(j) <= Pow10(k) && Pow10(k) == Pow10(k - j) * Pow10(j)
  {
    hide Pow10;
    PowLess(j, k);
    PowSum(k - j, j);
  }

  lemma Apart(j: nat, k: nat)
    ensures j < k ==> SIXTEEN * Pow10(j) <= 1000_0000_0000_0000 * Pow10(k)
  {
    if j < k {
      PowGrows(j + 1, k);
      assert Pow10(j + 1) == 10 * Pow10(j);
    }
  }

  /** The number of extra digits from bounds. */
  lemma ExcessFrom(n: nat, k: nat)
    requires 1000_0000_0000_0000 * Pow10(k) <= n < SIXTEEN * Pow10(k)
    ensures Excess(n) == k
  {
    var x := Excess(n);
    ExcessIs(n);
    Apart(x, k);
    Apart(k, x);
  }

  lemma DivExact(c: nat, p: nat)
    requires p > 0
    ensures (c * p) / p == c && (c * p) % p == 0
  {
    assert c * p == p * c + 0;
    UniqueRemainder(c * p, p, c, 0);
    DivMod(c * p, p);
    Cancel(c, (c * p) / p, p);
  }

  /** Rounding gives a nearest number of sixteen digits. */
  lemma RoundNearest(n: nat)
    ensures 2 * Abs(RoundNat(n) - n) <= Pow10(Excess(n))
    ensures Fits(RoundNat(n))
  {
    var k := Excess(n);
    var p := Pow10(k);
    ExcessIs(n);
    hide Excess;
    DivMod(n, p);
    var q, h := n / p, HalfEven(n, p);
    assert (q + 1) * p == q * p + p;
    QuotientBelow(n, p, q);
    if h == SIXTEEN {
      Carry(k);
    }
  }

  /** Of two numbers as near, the one whose last digit kept is even. */
  lemma RoundTie(n: nat)
    requires 2 * Abs(RoundNat(n) - n) == Pow10(Excess(n))
    ensures RoundNat(n) / Pow10(Excess(n)) % 2 == 0
  {
    var p := Pow10(Excess(n));
    hide Excess, Pow10;
    DivMod(n, p);
    var q, h := n / p, HalfEven(n, p);
    assert (q + 1) * p == q * p + p;
    DivExact(h, p);
  }

  lemma QuotientBelow(n: nat, p: nat, q: nat)
    requires p > 0 && q * p <= n < SIXTEEN * p
    ensures q < SIXTEEN
  {
    if q >= SIXTEEN {
      MoreTimes(SIXTEEN, q, p);
    }
  }

  lemma Carry(k: nat)
    ensures SIXTEEN * Pow10(k) == 1000_0000_0000_0000 * Pow10(k + 1)
    ensures Fits(SIXTEEN * Pow10(k))
  {
    assert Pow10(k + 1) == 10 * Pow10(k);
  }

  /** A number is left alone exactly if sixteen digits are enough for it. */
  lemma RoundExact(n: nat)
    ensures RoundNat(n) == n <==> Fits(n)
  {
    RoundNearest(n);
    if Fits(n) {
      var c, k: nat :| 0 <= c < SIXTEEN && n == c * Pow10(k);
      ScaledExact(c, k);
    }
  }

  lemma ScaledExact(c: nat, k: nat)
    requires c < SIXTEEN
    ensures RoundNat(c * Pow10(k)) == c * Pow10(k)
  {
    hide Pow10, Excess, HalfEven;
    var x := Excess(c * Pow10(k));
    ShortExcess(c, k);
    PowGrows(x, k);
    Reassociate(c, Pow10(k - x), Pow10(x));
    HalfEvenExact(c * Pow10(k - x), Pow10(x));
  }

  lemma ShortExcess(c: nat, k: nat)
    requires c < SIXTEEN
    ensures Excess(c * Pow10(k)) <= k
  {
    hide Pow10, Excess;
    var x := Excess(c * Pow10(k));
    ExcessIs(c * Pow10(k));
    LessTimes(c, SIXTEEN, Pow10(k));
    Apart(k, x);
  }

  lemma HalfEvenExact(d: nat, p: nat)
    requires p > 0
    ensures HalfEven(d * p, p) == d
  {
    DivExact(d, p);
  }

  lemma Reassociate(a: nat, b: nat, c: nat)
    ensures a * (b * c) == (a * b) * c
  {
  }

  // ----- when adding is exact -----

  /** Amounts that a decimal can be. */
  ghost predicate Holds(n: int) {
    Fits(Abs(n)) && Abs(n) < Limit()
  }

  /** A sum is the exact one exactly if a decimal can be it. */
  lemma AddExact(a: int, b: int)
    ensures Add(Num(a), Num(b)) == Num(a + b) <==> Holds(a + b)
  {
    RoundExact(Abs(a + b));
    hide RoundNat, Limit, Fits;
  }

  /** What a sum of numbers is: one that a decimal can be, at most half of its last
      place away from the exact sum and even there on a tie; or infinite, with the
      sum's sign, if rounding it leaves nothing that a decimal can be. */
  lemma AddNearest(a: int, b: int)
    ensures var r, p := Add(Num(a), Num(b)), Pow10(Excess(Abs(a + b)));
      && (r.Num? ==> Holds(r.n) && 2 * Abs(r.n - (a + b)) <= p)
      && (r.Num? && 2 * Abs(r.n - (a + b)) == p ==> Abs(r.n) / p % 2 == 0)
      && (!r.Num? ==> r == Inf(a + b < 0) && RoundNat(Abs(a + b)) >= Pow10(783))
  {
    hide *;
    var s := a + b;
    var n: int := Abs(s);
    var x: int := RoundNat(n);
    SumIs(a, b, s);
    RoundNearest(n);
    Signed(s, x);
    if 2 * Abs(x - n) == Pow10(Excess(n)) {
      RoundTie(n);
    }
  }

  lemma SumIs(a: int, b: int, s: int)
    requires s == a + b
    ensures var r, x := Add(Num(a), Num(b)), RoundNat(Abs(s));
      && (x >= Pow10(783) ==> r == Inf(s < 0))
      && (x < Pow10(783) ==> r == Num(if s < 0 then 0 - x else x))
      && (r.Num? && Fits(Abs(r.n)) && Abs(r.n) < Pow10(783) ==> Holds(r.n))
  {
    hide RoundNat, Fits, Pow10, Abs;
  }

  lemma Signed(s: int, x: nat)
    ensures var r: int := if s < 0 then 0 - x else x; Abs(r) == x && Abs(r - s) == Abs(x - Abs(s))
  {
  }

  /** What a rounding puts on top of the exact sum. */
  function Error(a: Amount, b: Amount): int
    requires a.Num? && b.Num? && Add(a, b).Num?
  {
    Add(a, b).n - (a.n + b.n)
  }

  /** A whole number of steps of 10^q. */
  ghost predicate InSteps(n: int, q: nat) {
    exists c: int {:trigger c * Pow10(q)} :: n == c * Pow10(q)
  }

  lemma StepsAdd(a: int, b: int, q: nat)
    requires InSteps(a, q) && InSteps(b, q)
    ensures InSteps(a + b, q) && InSteps(-b, q) && InSteps(0, q)
  {
    var c: int :| a == c * Pow10(q);
    var d: int :| b == d * Pow10(q);
    hide Pow10;
    assert (c + d) * Pow10(q) == a + b;
    assert (-d) * Pow10(q) == -b;
    assert 0 * Pow10(q) == 0;
  }

  /** Sixteen digits of steps that are not too large are held. */
  lemma StepsHold(n: int, q: nat)
    requires InSteps(n, q) && q <= 767 && Abs(n) < Pow10(16 + q)
    ensures Holds(n)
  {
    var c: int :| n == c * Pow10(q);
    hide Pow10;
    SixteenMore(q);
    PowGrows(16 + q, 783);
    SmallFactor(c, Pow10(q), n);
    assert Abs(n) == Abs(c) * Pow10(q);
  }

  lemma SixteenMore(q: nat)
    ensures Pow10(16 + q) == SIXTEEN * Pow10(q)
  {
    hide Pow10;
    PowSixteen();
    PowGrows(q, 16 + q);
    assert 16 + q - q == 16;
  }

  lemma SmallFactor(c: int, p: nat, n: int)
    requires p > 0 && n == c * p && Abs(n) < SIXTEEN * p
    ensures Abs(c) < SIXTEEN && Abs(n) == Abs(c) * p
  {
    assert Abs(n) == Abs(c) * p;
    if Abs(c) >= SIXTEEN {
      MoreTimes(SIXTEEN, Abs(c), p);
    }
  }

  // ----- a sum that is rounded -----

  /** 10^16 in some unit, and one more of it: the one is lost. */
  lemma Absorbed(k: nat, big: int, one: int)
    requires k <= 766 && one == Pow10(k) && big == SIXTEEN * one
    ensures Holds(big) && Holds(-big) && Holds(one) && Holds(-one)
    ensures Add(Num(big), Num(one)) == Num(big) && Add(Num(-big), Num(-one)) == Num(-big)
  {
    BothHold(k, big, one);
    hide Pow10, Fits, Limit, Excess, RoundNat;
    AbsorbedNat(k);
    assert Abs(big + one) == big + one == Abs(-big - one);
  }

  lemma BothHold(k: nat, big: int, one: int)
    requires k <= 766 && one == Pow10(k) && big == SIXTEEN * one
    ensures Holds(big) && Holds(-big) && Holds(one) && Holds(-one)
  {
    hide Pow10, Limit;
    Carry(k);
    assert one == 1 * Pow10(k);
    SixteenMore(k);
    PowGrows(16 + k, 782);
    BelowLimit(big);
    BelowLimit(one);
  }

  lemma BelowLimit(n: nat)
    requires n <= Pow10(782)
    ensures n < Limit()
  {
    hide Pow10;
    PowGrows(782, 783);
    assert 783 - 782 == 1;
    PowOne();
  }

  lemma PowOne()
    ensures Pow10(1) == 10
  {
    assert Pow10(0) == 1;
  }

  lemma AbsorbedNat(k: nat)
    ensures RoundNat(SIXTEEN * Pow10(k) + Pow10(k)) == SIXTEEN * Pow10(k)
  {
    var one, p := Pow10(k), Pow10(k + 1);
    var n := SIXTEEN * one + one;
    assert p == 10 * one;
    ExcessFrom(n, k + 1);
    hide Pow10, Excess;
    UniqueRemainder(n, p, 1000_0000_0000_0000, one);
    DivMod(n, p);
    Cancel(n / p, 1000_0000_0000_0000, p);
  }

  // ----- the decimals of the layouts -----

  /** A decimal in units of 10^-398. */
  function Units(x: Finite): int
    requires x.expo >= -398
  {
    var n: int := x.coef * Pow10(x.expo + 398);
    if x.neg then 0 - n else n
  }

  /** These are the numbers that 64-bit decimals have, no more and no less. */
  lemma UnitsHold(n: int)
    ensures Holds(n) <==>
      exists x: Finite {:trigger Units(x)} :: -398 <= x.expo < 370 && x.coef < SIXTEEN && Units(x) == n
  {
    hide Limit, Pow10;
    if Holds(n) {
      var c, k: nat :| 0 <= c < SIXTEEN && Abs(n) == c * Pow10(k);
      var x := HeldBy(c, k, n);
      assert Units(x) == n;
    }
    forall x: Finite | -398 <= x.expo < 370 && x.coef < SIXTEEN && Units(x) == n ensures Holds(n) {
      UnitsBelow(x.coef, x.expo + 398);
      assert Abs(n) == x.coef * Pow10(x.expo + 398);
    }
  }

  lemma UnitsBelow(c: nat, k: nat)
    requires c < SIXTEEN && k < 768
    ensures Fits(c * Pow10(k)) && c * Pow10(k) < Limit()
  {
    hide Pow10;
    SixteenMore(k);
    PowGrows(16 + k, 783);
    LessTimes(c, SIXTEEN, Pow10(k));
  }

  /** A coefficient with its zeros moved in until the exponent is small enough. */
  lemma {:induction false} HeldBy(c: nat, k: nat, n: int) returns (x: Finite)
    requires c < SIXTEEN && Abs(n) == c * Pow10(k) < Limit()
    ensures -398 <= x.expo < 370 && x.coef < SIXTEEN && Units(x) == n
    decreases k
  {
    hide Limit;
    if k < 768 {
      x := Finite(n < 0, c, k - 398);
    } else {
      ShortCoefficient(c, k);
      assert Pow10(k) == 10 * Pow10(k - 1);
      hide Pow10;
      assert c * Pow10(k) == (10 * c) * Pow10(k - 1) by { TenOver(c, Pow10(k - 1)); }
      x := HeldBy(10 * c, k - 1, n);
    }
  }

  lemma TenOver(c: nat, p: nat)
    ensures c * (10 * p) == (10 * c) * p
  {
  }

  lemma ShortCoefficient(c: nat, k: nat)
    requires k >= 768 && c * Pow10(k) < Limit()
    ensures 10 * c < SIXTEEN
  {
    hide Pow10;
    var p := Pow10(768);
    PowGrows(768, k);
    PowGrows(768, 783);
    PowSixteen();
    assert 783 - 768 == 15;
    MoreTimes(p, Pow10(k), c);
    if c >= 1000_0000_0000_0000 {
      MoreTimes(1000_0000_0000_0000, c, p);
    }
  }
}
