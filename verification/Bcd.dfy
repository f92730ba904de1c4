/** Binary-coded decimals: a word whose hexadecimal digits are decimal digits. */
module Bcd {

  function Pow10(k: nat): (p: nat)
    ensures p > 0
  {
    if k == 0 then 1 else 10 * Pow10(k - 1)
  }

  lemma {:induction false} PowLess(j: nat, k: nat)
    requires j <= k
    ensures Pow10(j) <= Pow10(k)
    decreases k - j
  {
    if j < k {
      PowLess(j + 1, k);
    }
  }

  lemma {:induction false} PowSum(j: nat, k: nat)
    ensures Pow10(j + k) == Pow10(j) * Pow10(k)
    decreases j
  {
    if j == 0 {
      assert Pow10(0) == 1;
    } else {
      PowSum(j - 1, k);
      TimesTen(Pow10(k), 10, Pow10(j - 1));
    }
  }

  function Pow16(k: nat): (p: nat)
    ensures p > 0
  {
    if k == 0 then 1 else 16 * Pow16(k - 1)
  }

  /** Every nibble is a decimal digit. */
  predicate IsBcd(b: nat) {
    b == 0 || (b % 16 <= 9 && IsBcd(b / 16))
  }

  /** The number the nibbles spell; a nibble may also be 10 or more. */
  function Val(b: nat): nat {
    if b == 0 then 0 else Val(b / 16) * 10 + b % 16
  }

  /** The word that spells a number. */
  function BcdOf(m: nat): nat {
    if m == 0 then 0 else BcdOf(m / 10) * 16 + m % 10
  }

  lemma ValDigit(b: nat, d: nat)
    requires d < 16
    ensures Val(b * 16 + d) == Val(b) * 10 + d
    ensures IsBcd(b * 16 + d) <==> d <= 9 && IsBcd(b)
  {
    assert (b * 16 + d) / 16 == b && (b * 16 + d) % 16 == d;
  }

  lemma ValParts(b: nat)
    ensures Val(b) == Val(b / 16) * 10 + b % 16
    ensures IsBcd(b) <==> b % 16 <= 9 && IsBcd(b / 16)
  {
  }

  lemma {:induction false} ValOfBcdOf(m: nat)
    ensures IsBcd(BcdOf(m)) && Val(BcdOf(m)) == m
  {
    if m > 0 {
      ValOfBcdOf(m / 10);
      ValDigit(BcdOf(m / 10), m % 10);
    }
  }

  lemma {:induction false} BcdOfVal(b: nat)
    requires IsBcd(b)
    ensures BcdOf(Val(b)) == b
  {
    if b > 0 {
      BcdOfVal(b / 16);
      var v, d := Val(b / 16), b % 16;
      assert (v * 10 + d) / 10 == v && (v * 10 + d) % 10 == d;
      ValPositive(b);
    }
  }

  lemma {:induction false} ValBound(b: nat, k: nat)
    requires IsBcd(b)
    ensures b < Pow16(k) <==> Val(b) < Pow10(k)
  {
    if k == 0 {
      if b > 0 {
        ValPositive(b);
      }
    } else {
      ValBound(b / 16, k - 1);
      assert b == b / 16 * 16 + b % 16;
      if b > 0 {
        assert Val(b) == Val(b / 16) * 10 + b % 16;
      }
    }
  }

  lemma {:induction false} ValPositive(b: nat)
    requires IsBcd(b) && b > 0
    ensures Val(b) > 0
  {
    if b / 16 > 0 {
      ValPositive(b / 16);
    }
  }

  lemma TimesTen(x: nat, base: nat, p: nat)
    ensures x * (base * p) == x * p * base
  {
  }

  /** A word cut after its k low nibbles spells a number cut after k digits. */
  lemma {:induction false} ValSplit(h: nat, low: nat, k: nat)
    requires low < Pow16(k)
    ensures Val(h * Pow16(k) + low) == Val(h) * Pow10(k) + Val(low)
    ensures IsBcd(h * Pow16(k) + low) <==> IsBcd(h) && IsBcd(low)
    decreases k
  {
    if k > 0 {
      var p, q, l, d := Pow16(k - 1), Pow10(k - 1), low / 16, low % 16;
      assert Pow16(k) == 16 * p && Pow10(k) == 10 * q;
      ValSplit(h, l, k - 1);
      hide Val, IsBcd, Pow16, Pow10;
      SplitStep(h, l, d, p, q);
    }
  }

  lemma SplitStep(h: nat, l: nat, d: nat, p: nat, q: nat)
    requires d < 16 && Val(h * p + l) == Val(h) * q + Val(l)
    requires IsBcd(h * p + l) <==> IsBcd(h) && IsBcd(l)
    ensures Val(h * (16 * p) + (l * 16 + d)) == Val(h) * (10 * q) + Val(l * 16 + d)
    ensures IsBcd(h * (16 * p) + (l * 16 + d)) <==> IsBcd(h) && IsBcd(l * 16 + d)
  {
    hide Val, IsBcd;
    Regroup(h, 16, p, l, d);
    Regroup(Val(h), 10, q, Val(l), d);
    ValDigit(h * p + l, d);
    ValDigit(l, d);
  }

  lemma Regroup(h: nat, base: nat, p: nat, l: nat, d: nat)
    ensures h * (base * p) + (l * base + d) == (h * p + l) * base + d
  {
    TimesTen(h, base, p);
  }

  lemma ValShift(b: nat, i: nat)
    ensures Val(b * Pow16(i)) == Val(b) * Pow10(i)
    ensures IsBcd(b) ==> IsBcd(b * Pow16(i))
  {
    ValSplit(b, 0, i);
  }
}
