/** Rounding a decimal to another exponent, digit by digit: on a binary
    coefficient and on a BCD coefficient. */
module Quantise {
  import opened Arith
  import opened Bcd

  // ----- dropping digits from a number -----

  /** One digit off the end, rounded half up. */
  function DropDigit(m: nat): nat {
    m / 10 + if m % 10 >= 5 then 1 else 0
  }

  function Drop(m: nat, k: nat): nat {
    if k == 0 then m else DropDigit(Drop(m, k - 1))
  }

  /** The number written with k ones. */
  function Repunit(k: nat): nat {
    if k == 0 then 0 else Repunit(k - 1) * 10 + 1
  }

  lemma {:induction false} RepunitNines(k: nat)
    ensures 9 * Repunit(k) == Pow10(k) - 1
    ensures k > 0 ==> Repunit(k) == Repunit(k - 1) + Pow10(k - 1)
  {
    if k > 0 {
      RepunitNines(k - 1);
    }
  }

  /** q is x divided by p, rounded down. */
  ghost predicate IsFloor(q: nat, x: nat, p: nat) {
    q * p <= x < q * p + p
  }

  lemma FloorDiv(q: nat, x: nat, p: nat)
    requires p > 0 && IsFloor(q, x, p)
    ensures q == x / p
  {
    assert x == x / p * p + x % p;
    FloorUnique(q, x / p, x, p);
  }

  lemma DropStep(y: nat, x: nat, p: nat)
    requires IsFloor(y, x, p)
    ensures IsFloor(DropDigit(y), x + 5 * p, 10 * p)
  {
    var z := DropDigit(y);
    assert 10 * z <= y + 5 <= 10 * z + 9;
    ScaleOrder(10 * z, y + 5, p);
    ScaleOrder(y + 5, 10 * z + 9, p);
    assert (10 * z) * p == z * (10 * p);
    assert (y + 5) * p == y * p + 5 * p;
    assert (10 * z + 9) * p == z * (10 * p) + 9 * p;
  }

  lemma ScaleOrder(x: nat, y: nat, p: nat)
    requires x <= y
    ensures x * p <= y * p
  {
    assert y * p == x * p + (y - x) * p;
    assert (y - x) * p >= 0;
  }

  /** Dropping k digits one at a time is one division, with five times a repunit
      where a single rounding would add five and zeros. */
  lemma DropClosedForm(m: nat, k: nat)
    ensures Drop(m, k) == (m + 5 * Repunit(k)) / Pow10(k)
  {
    DropFloor(m, k);
    FloorDiv(Drop(m, k), m + 5 * Repunit(k), Pow10(k));
  }

  lemma {:induction false} DropFloor(m: nat, k: nat)
    ensures IsFloor(Drop(m, k), m + 5 * Repunit(k), Pow10(k))
  {
    if k > 0 {
      DropFloor(m, k - 1);
      RepunitNines(k);
      DropStep(Drop(m, k - 1), m + 5 * Repunit(k - 1), Pow10(k - 1));
    }
  }

  /** How far the result can be off: at most 5/9 of the new last place above the
      value and 4/9 below it. */
  lemma DropError(m: nat, k: nat)
    ensures -4 * (Pow10(k) - 1) <= 9 * (Drop(m, k) * Pow10(k) - m) <= 5 * (Pow10(k) - 1)
  {
    DropFloor(m, k);
    RepunitNines(k);
  }

  /** Rounding half up once, a coefficient with q in front of a tail of k digits. */
  function HalfUp(q: nat, tail: nat, k: nat): nat
    requires k > 0
  {
    if tail >= 5 * Pow10(k - 1) then q + 1 else q
  }

  /** Digit-by-digit rounding differs from rounding once exactly when the
      dropped digits lie from 44...45 to 49...99, and then it is one too high. */
  lemma DoubleRounding(q: nat, tail: nat, k: nat)
    requires k > 0 && tail < Pow10(k)
    ensures var d := Drop(q * Pow10(k) + tail, k);
      && d == (if tail > 4 * Repunit(k) then q + 1 else q)
      && (d != HalfUp(q, tail, k) <==> 4 * Repunit(k) < tail < 5 * Pow10(k - 1))
      && HalfUp(q, tail, k) <= d <= HalfUp(q, tail, k) + 1
  {
    var m, p := q * Pow10(k) + tail, Pow10(k);
    RepunitNines(k);
    assert p == 10 * Pow10(k - 1);
    DropFloor(m, k);
    var c := if tail > 4 * Repunit(k) then q + 1 else q;
    assert (q + 1) * p == q * p + p;
    assert IsFloor(c, m + 5 * Repunit(k), p);
    hide Drop, Repunit, Pow10;
    FloorUnique(c, Drop(m, k), m + 5 * Repunit(k), p);
  }

  lemma FloorUnique(c: nat, d: nat, x: nat, p: nat)
    requires IsFloor(c, x, p) && IsFloor(d, x, p)
    ensures c == d
  {
    if c < d {
      NextMultiple(p, c, d);
    } else if d < c {
      NextMultiple(p, d, c);
    }
  }

  /** What stands above the dropped digits is added on top. */
  lemma DropAbove(a: nat, b: nat, k: nat)
    ensures Drop(a * Pow10(k) + b, k) == a + Drop(b, k)
  {
    var p, d := Pow10(k), Drop(b, k);
    DropFloor(a * p + b, k);
    DropFloor(b, k);
    assert (a + d) * p == a * p + d * p;
    hide Drop, Repunit, Pow10;
    FloorUnique(a + d, Drop(a * p + b, k), a * p + b + 5 * Repunit(k), p);
  }

  lemma {:induction false} StaysNothing(m: nat, j: nat, k: nat)
    requires j <= k && Drop(m, j) == 0
    ensures Drop(m, k) == 0
    decreases k - j
  {
    if j < k {
      StaysNothing(m, j + 1, k);
    }
  }

  // ----- bringing a coefficient to another exponent -----

  datatype Scaled = Scaled(coef: nat, expo: int)

  /** Zeros are appended down to the wanted exponent, or until the coefficient
      has all its digits. */
  function Expand(m: nat, ex: int, er: int, digits: nat): Scaled
    requires digits > 0
    decreases ex - er
  {
    if m < Pow10(digits - 1) && ex > er then Expand(m * 10, ex - 1, er, digits) else Scaled(m, ex)
  }

  /** The coefficient m at exponent ex, quantised to exponent er. */
  function Quantised(m: nat, ex: int, er: int, digits: nat): Scaled
    requires digits > 0
  {
    if ex < er then Scaled(Drop(m, er - ex), er) else Expand(m, ex, er, digits)
  }

  /** Expanding keeps the value, ends no lower than the wanted exponent, and
      above it only when the coefficient is full. */
  lemma {:induction false} ExpandIsExact(m: nat, ex: int, er: int, digits: nat)
    requires digits > 0 && er <= ex
    ensures var r := Expand(m, ex, er, digits);
      && er <= r.expo <= ex
      && r.coef == m * Pow10(ex - r.expo)
      && (r.expo == er || r.coef >= Pow10(digits - 1))
      && (r.expo < ex ==> r.coef < Pow10(digits))
    decreases ex - er
  {
    if m < Pow10(digits - 1) && ex > er {
      ExpandIsExact(m * 10, ex - 1, er, digits);
      var r := Expand(m, ex, er, digits);
      TimesTen(m, 10, Pow10(ex - 1 - r.expo));
      assert m * 10 * Pow10(ex - 1 - r.expo) == m * Pow10(ex - 1 - r.expo) * 10;
    }
  }

  lemma {:induction false} DropBound(m: nat, k: nat, digits: nat)
    requires digits > 0 && m < Pow10(digits)
    ensures Drop(m, k) < Pow10(digits)
    ensures k > 0 ==> Drop(m, k) <= Pow10(digits - 1)
  {
    if k > 0 {
      DropBound(m, k - 1, digits);
    }
  }

  /** A coefficient that fits stays one that fits. */
  lemma QuantisedFits(m: nat, ex: int, er: int, digits: nat)
    requires digits > 0 && m < Pow10(digits)
    ensures Quantised(m, ex, er, digits).coef < Pow10(digits)
  {
    if ex < er {
      DropBound(m, er - ex, digits);
    } else {
      ExpandIsExact(m, ex, er, digits);
      assert m * Pow10(0) == m;
    }
  }

  /** No coefficient grows past its own size or the format's. */
  lemma QuantisedBound(m: nat, ex: int, er: int, digits: nat)
    requires digits > 0
    ensures var q := Quantised(m, ex, er, digits); q.coef <= m || q.coef < Pow10(digits)
  {
    if ex < er {
      DropNoLarger(m, er - ex);
    } else {
      ExpandIsExact(m, ex, er, digits);
      assert m * Pow10(0) == m;
    }
  }

  lemma {:induction false} DropNoLarger(m: nat, k: nat)
    ensures Drop(m, k) <= m
  {
    if k > 0 {
      DropNoLarger(m, k - 1);
    }
  }

  /** The new exponent lies between the old one and the wanted one. */
  lemma QuantisedExpo(m: nat, ex: int, er: int, digits: nat)
    requires digits > 0
    ensures var q := Quantised(m, ex, er, digits); er <= q.expo && (q.expo == er || q.expo <= ex)
  {
    if ex >= er {
      ExpandIsExact(m, ex, er, digits);
    }
  }

  /** Quantising again to the same exponent changes nothing. */
  lemma QuantisedTwice(m: nat, ex: int, er: int, digits: nat)
    requires digits > 0
    ensures var r := Quantised(m, ex, er, digits); Quantised(r.coef, r.expo, er, digits) == r
  {
    if ex >= er {
      ExpandIsExact(m, ex, er, digits);
    }
  }

  /** Nothing is brought to the wanted exponent. */
  lemma QuantisedZero(m: nat, ex: int, er: int, digits: nat)
    requires digits > 0 && Quantised(m, ex, er, digits).coef == 0
    ensures Quantised(m, ex, er, digits).expo == er
  {
    if ex >= er {
      ExpandIsExact(m, ex, er, digits);
    }
  }

  /** Expanded from exponent zero, an integer that fits never gets far below. */
  lemma FromZero(m: nat, er: int, digits: nat)
    requires digits > 0 && 0 < m < Pow10(digits) && er + digits < 0
    ensures er < Quantised(m, 0, er, digits).expo <= 0
    ensures m < Pow10(digits - 1) ==> Quantised(m, 0, er, digits).expo < 0
  {
    ExpandIsExact(m, 0, er, digits);
    assert m * Pow10(0) == m;
    hide Pow10;
    FarOut(m, -er, digits);
  }

  lemma FarOut(m: nat, k: nat, digits: nat)
    requires m > 0 && digits <= k
    ensures m * Pow10(k) >= Pow10(digits)
  {
    hide Pow10;
    PowLess(digits, k);
    LeastMultiple(Pow10(k), m);
    assert Pow10(k) * m == m * Pow10(k);
  }

  /** The loops over a binary coefficient. */
  method QuantiseBinary(coef: nat, expo: int, er: int, digits: nat) returns (m: nat, ex: int)
    requires digits > 0
    ensures Scaled(m, ex) == Quantised(coef, expo, er, digits)
  {
    m, ex := coef, expo;
    while ex < er
      invariant expo <= ex && (ex <= er || ex == expo)
      invariant m == Drop(coef, ex - expo)
    {
      m := m / 10 + if m % 10 >= 5 then 1 else 0;
      ex := ex + 1;
    }
    while m < Pow10(digits - 1) && ex > er
      invariant ex >= er
      invariant Quantised(coef, expo, er, digits)
             == if expo < er then Scaled(m, ex) else Expand(m, ex, er, digits)
      decreases ex - er
    {
      m := m * 10;
      ex := ex - 1;
    }
  }

  // ----- the same on nibbles -----

  /** One nibble off the end; the carry stays in the nibble above. */
  function DropNibble(b: nat): nat {
    b / 16 + if b % 16 >= 5 then 1 else 0
  }

  /** BCD except that the lowest nibble may hold a ten. */
  predicate IsAlmostBcd(b: nat) {
    b % 16 <= 10 && IsBcd(b / 16)
  }

  lemma Increment(c: nat)
    requires IsBcd(c)
    ensures Val(c + 1) == Val(c) + 1 && IsAlmostBcd(c + 1)
  {
    assert (c + 1) / 16 == c / 16 && (c + 1) % 16 == c % 16 + 1 by { ValParts(c); }
    ValParts(c + 1);
    ValParts(c);
  }

  /** A ten in the lowest nibble is a one in the nibble above. */
  lemma CarryOut(b: nat)
    requires IsAlmostBcd(b) && b % 16 == 10
    ensures Val(b) == 10 * Val(b / 16 + 1) && IsAlmostBcd(b / 16 + 1)
  {
    ValParts(b);
    Increment(b / 16);
  }

  lemma DropNibbleDropsDigit(b: nat)
    requires IsAlmostBcd(b)
    ensures Val(DropNibble(b)) == DropDigit(Val(b)) && IsAlmostBcd(DropNibble(b))
  {
    var c, d := b / 16, b % 16;
    ValParts(b);
    ValParts(c);
    Increment(c);
    TensAndUnits(Val(c), d);
  }

  lemma TensAndUnits(v: nat, d: nat)
    requires d <= 10
    ensures DropDigit(v * 10 + d) == v + if d >= 5 then 1 else 0
  {
    if d == 10 {
      assert (v * 10 + 10) / 10 == v + 1 && (v * 10 + 10) % 10 == 0;
    } else {
      assert (v * 10 + d) / 10 == v && (v * 10 + d) % 10 == d;
    }
  }

  lemma CarryScaled(b: nat, i: nat)
    requires IsAlmostBcd(b) && b % 16 == 10
    ensures Val(b / 16 + 1) * Pow10(i + 1) == Val(b) * Pow10(i)
  {
    CarryOut(b);
    TimesTen(Val(b / 16 + 1), 10, Pow10(i));
    SwapFactors(Val(b / 16 + 1), Pow10(i));
  }

  lemma SwapFactors(v: nat, p: nat)
    ensures v * p * 10 == 10 * v * p
  {
  }

  /** A ten that has been left standing is carried up, through nines if need be. */
  method FixCarry(b0: nat) returns (b: nat)
    requires IsAlmostBcd(b0)
    ensures IsBcd(b) && Val(b) == Val(b0)
  {
    hide Val, IsBcd;
    var i: nat := 0;
    b := b0;
    assert Val(b) * Pow10(0) == Val(b0);
    hide Pow10;
    while b % 16 >= 10
      invariant IsAlmostBcd(b) && Val(b) * Pow10(i) == Val(b0)
      decreases b
    {
      CarryOut(b);
      CarryScaled(b, i);
      b := b / 16;
      b := b + 1;
      i := i + 1;
    }
    ValParts(b);
    ValShift(b, i);
    b := b * Pow16(i);
  }

  method TruncateBcd(coef: nat, expo: int, er: int) returns (b: nat, ex: int)
    requires IsBcd(coef)
    ensures IsBcd(b)
    ensures if expo < er then ex == er && Val(b) == Drop(Val(coef), er - expo)
            else ex == expo && Val(b) == Val(coef)
  {
    hide Val, IsBcd;
    b, ex := coef, expo;
    ValParts(b);
    while ex < er
      invariant expo <= ex && (ex <= er || ex == expo)
      invariant IsAlmostBcd(b) && Val(b) == Drop(Val(coef), ex - expo)
    {
      DropNibbleDropsDigit(b);
      b := DropNibble(b);
      ex := ex + 1;
    }
    b := FixCarry(b);
  }

  /** The loops over a BCD coefficient: truncation with the carry left standing,
      then the carry fixed up, then expansion.  They give the BCD form of what
      the loops over a binary coefficient give. */
  method QuantiseBcd(coef: nat, expo: int, er: int, digits: nat) returns (b: nat, ex: int)
    requires digits > 0 && IsBcd(coef) && coef < Pow16(digits)
    ensures IsBcd(b) && b < Pow16(digits)
    ensures Scaled(Val(b), ex) == Quantised(Val(coef), expo, er, digits)
  {
    hide Val, IsBcd, Drop;
    b, ex := TruncateBcd(coef, expo, er);
    ValBound(coef, digits);
    if expo < er {
      DropBound(Val(coef), er - expo, digits);
    }
    ValBound(b, digits);
    ValBound(b, digits - 1);
    while b < Pow16(digits - 1) && ex > er
      invariant ex >= er && IsBcd(b) && b < Pow16(digits)
      invariant Quantised(Val(coef), expo, er, digits)
             == if expo < er then Scaled(Val(b), ex) else Expand(Val(b), ex, er, digits)
      decreases ex - er
    {
      ValBound(b, digits - 1);
      ValDigit(b, 0);
      b := b * 16;
      ex := ex - 1;
    }
    ValBound(b, digits - 1);
  }
}
