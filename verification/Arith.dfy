/** Facts about multiples and remainders that the solver does not see unaided. */
module Arith {

  lemma MultipleMod(q: nat, p: nat)
    requires p > 0
    ensures (p * q) % p == 0
  {
    if q > 0 {
      MultipleMod(q - 1, p);
      assert p * q == p * (q - 1) + p;
      AddModulus(p * (q - 1), p);
    }
  }

  lemma AddModulus(x: nat, p: nat)
    requires p > 0
    ensures (x + p) % p == x % p
  {
    var q, r := x / p, x % p;
    assert x + p == p * (q + 1) + r;
    UniqueRemainder(x + p, p, q + 1, r);
  }

  lemma UniqueRemainder(x: nat, p: nat, q: nat, r: nat)
    requires p > 0 && x == p * q + r && r < p
    ensures x % p == r
  {
    var q', r' := x / p, x % p;
    assert x == p * q' + r';
    if q > q' {
      NextMultiple(p, q', q);
    } else if q < q' {
      NextMultiple(p, q, q');
    }
  }

  lemma NextMultiple(p: nat, a: nat, b: nat)
    requires a < b
    ensures p * a + p <= p * b
  {
    assert p * b == p * a + p * (b - a);
    LeastMultiple(p, b - a);
  }

  lemma LeastMultiple(p: nat, d: nat)
    requires d > 0
    ensures p <= p * d
  {
  }

  lemma DivMod(n: nat, p: nat)
    requires p > 0
    ensures n == (n / p) * p + n % p && 0 <= n % p < p && n / p >= 0
  {
    assert n == p * (n / p) + n % p;
  }

  lemma LessTimes(c: nat, b: nat, p: nat)
    requires c < b
    ensures c * p + p <= b * p
  {
    NextMultiple(p, c, b);
    assert p * c == c * p && p * b == b * p;
  }

  lemma MoreTimes(b: nat, c: nat, p: nat)
    requires b <= c
    ensures b * p <= c * p && p * b <= p * c
  {
    if b < c {
      LessTimes(b, c, p);
    }
    assert p * b == b * p && p * c == c * p;
  }

  lemma Cancel(c: nat, q: nat, p: nat)
    requires p > 0 && c * p == q * p
    ensures c == q
  {
    if c < q {
      LessTimes(c, q, p);
    } else if q < c {
      LessTimes(q, c, p);
    }
  }

  function Abs(n: int): nat {
    if n < 0 then -n else n
  }
}
