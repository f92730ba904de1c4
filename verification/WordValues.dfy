/** What the operations on 32-bit words are on the numbers they stand for. */
module WordValues {
  import opened Arith
  import opened Words

  function Value(w: word): (n: nat) {
    w as nat
  }

  // ----- a word is twice its half and its lowest bit -----

  function Half(w: word): word {
    w >> 1
  }

  predicate IsOdd(w: word) {
    w & 1 == 1
  }

  function Join(hi: bv31, lo: bv1): word {
    ((hi as word) << 1) | lo as word
  }

  lemma JoinValue(hi: bv31, lo: bv1)
    ensures Join(hi, lo) as nat == 2 * (hi as nat) + lo as nat
  {
    calc {
      Join(hi, lo) as nat;
      (((hi as word) << 1) | lo as word) as nat;
    }
  }

  function Widen31(hi: bv31): word {
    hi as word
  }

  predicate IsOne(lo: bv1) {
    lo == 1
  }

  lemma JoinParts(w: word) returns (hi: bv31, lo: bv1)
    ensures Join(hi, lo) == w && Widen31(hi) == Half(w) && (IsOne(lo) <==> IsOdd(w))
  {
    hide Join, Half, IsOdd, Widen31, IsOne;
    hi, lo := (w >> 1) as bv31, (w & 1) as bv1;
    JoinWhole(w);
    JoinedParts(hi, lo);
  }

  lemma JoinWhole(w: word)
    ensures Join((w >> 1) as bv31, (w & 1) as bv1) == w
  {
  }

  lemma JoinedParts(hi: bv31, lo: bv1)
    ensures Half(Join(hi, lo)) == Widen31(hi) && (IsOdd(Join(hi, lo)) <==> IsOne(lo))
  {
  }

  lemma Wide(hi: bv31, lo: bv1)
    ensures Value(Widen31(hi)) == hi as nat < 0x8000_0000 && lo as nat == if IsOne(lo) then 1 else 0
  {
  }

  lemma Halves(w: word)
    ensures Value(w) == 2 * Value(Half(w)) + (if IsOdd(w) then 1 else 0) && Value(Half(w)) < 0x8000_0000
  {
    hide Join, Half, IsOdd, Widen31, IsOne;
    var hi, lo := JoinParts(w);
    JoinValue(hi, lo);
    Wide(hi, lo);
  }

  lemma ZeroValue(w: word)
    ensures Value(w) == 0 <==> w == 0
  {
  }

  // ----- adding and multiplying -----

  lemma IncHalves(w: word)
    ensures IsOdd(Inc(w)) <==> !IsOdd(w)
    ensures !IsOdd(w) ==> Half(Inc(w)) == Half(w)
    ensures IsOdd(w) && w != 0xffff_ffff ==> Half(Inc(w)) == Inc(Half(w)) && Half(w) != 0xffff_ffff
    ensures w == 0xffff_ffff ==> Inc(w) == 0
  {
  }

  lemma LastValue()
    ensures Value(0xffff_ffff) == 0xffff_ffff && Value(0) == 0
  {
  }

  lemma {:induction false} IncValue(w: word)
    ensures Value(Inc(w)) == (Value(w) + 1) % TWO32
    ensures w != 0xffff_ffff ==> Value(Inc(w)) == Value(w) + 1
    decreases Value(w)
  {
    IncHalves(w);
    LastValue();
    hide Value, Inc, Half, IsOdd;
    Halves(w);
    Halves(Inc(w));
    if IsOdd(w) && w != 0xffff_ffff {
      IncValue(Half(w));
    }
  }

  lemma IncDec(w: word)
    ensures Inc(Dec(w)) == w && (w != 0 ==> Dec(w) != 0xffff_ffff)
  {
  }

  lemma {:induction false} PlusValue(a: word, b: word)
    ensures Value(Plus(a, b)) == (Value(a) + Value(b)) % TWO32
    decreases Value(b)
  {
    ZeroValue(b);
    ValueBelow(a);
    PlusSteps(a, Dec(b));
    hide Value, Inc, Dec, Plus;
    if b != 0 {
      IncDec(b);
      IncValue(Dec(b));
      PlusValue(a, Dec(b));
      IncValue(Plus(a, Dec(b)));
      AddModulus1(Value(a) + Value(Dec(b)));
    }
  }

  lemma ValueBelow(w: word)
    ensures Value(w) < TWO32
  {
  }

  lemma AddModulus1(x: nat)
    ensures (x % TWO32 + 1) % TWO32 == (x + 1) % TWO32
  {
  }

  /** f adds c whenever its argument goes up by one. */
  ghost predicate AddsUp(f: word -> word, c: word) {
    f(0) == 0 && forall y {:trigger f(Inc(y))} :: f(Inc(y)) == Plus(f(y), c)
  }

  /** It then multiplies by c. */
  lemma {:induction false} MultipleValue(f: word -> word, c: word, x: word)
    requires AddsUp(f, c)
    ensures Value(f(x)) == Value(x) * Value(c) % TWO32
    decreases Value(x)
  {
    ZeroValue(x);
    LastValue();
    hide Value, Inc, Dec, Plus;
    if x != 0 {
      IncDec(x);
      IncValue(Dec(x));
      MultipleValue(f, c, Dec(x));
      PlusValue(f(Dec(x)), c);
      NextProduct(Value(Dec(x)), Value(c));
    }
  }

  lemma NextProduct(x: nat, y: nat)
    ensures (x * y % TWO32 + y) % TWO32 == ((x + 1) * y) % TWO32
  {
    AddToRemainder(x * y, y);
    assert (x + 1) * y == x * y + y;
  }

  lemma AddToRemainder(p: nat, y: nat)
    ensures (p % TWO32 + y) % TWO32 == (p + y) % TWO32
  {
  }

  // ----- xor, bit by bit -----

  /** The bits in which two numbers differ, as a number. */
  function Xored(a: nat, b: nat): nat
    decreases a + b
  {
    if a == 0 then b else if b == 0 then a else 2 * Xored(a / 2, b / 2) + (a + b) % 2
  }

  function Xor(a: word, b: word): word {
    a ^ b
  }

  lemma XorHalves(a: word, b: word)
    ensures Half(Xor(a, b)) == Xor(Half(a), Half(b))
    ensures IsOdd(Xor(a, b)) <==> IsOdd(a) != IsOdd(b)
    ensures Xor(0, b) == b && Xor(a, 0) == a
  {
  }

  lemma {:induction false} XorValue(a: word, b: word)
    ensures Value(Xor(a, b)) == Xored(Value(a), Value(b))
    decreases Value(a)
  {
    XorHalves(a, b);
    ZeroValue(a);
    ZeroValue(b);
    XoredZero(Value(a), Value(b));
    hide Value, Xor, Half, IsOdd, Xored;
    if a != 0 && b != 0 {
      Halves(a);
      Halves(b);
      Halves(Xor(a, b));
      XorValue(Half(a), Half(b));
      XoredBits(Value(a), Value(b), Value(Half(a)), Value(Half(b)),
        if IsOdd(a) then 1 else 0, if IsOdd(b) then 1 else 0);
    }
  }

  lemma XoredZero(a: nat, b: nat)
    ensures a == 0 ==> Xored(a, b) == b
    ensures b == 0 ==> Xored(a, b) == a
  {
  }

  lemma XoredBits(a: nat, b: nat, x: nat, y: nat, i: nat, j: nat)
    requires a == 2 * x + i > 0 && b == 2 * y + j > 0 && i < 2 && j < 2
    ensures Xored(a, b) == 2 * Xored(x, y) + if i == j then 0 else 1
  {
    FromBits(a, x, i);
    FromBits(b, y, j);
  }

  lemma FromBits(x: nat, half: nat, bit: nat)
    requires x == 2 * half + bit && bit < 2
    ensures x / 2 == half && x % 2 == bit
  {
  }

  // ----- shifting and rotating -----

  function Shifted(w: word, r: bv6): word
    requires r < 32
  {
    w >> r
  }

  lemma ShiftedNext(w: word, r: bv6)
    requires r < 31
    ensures Shifted(w, r + 1) == Half(Shifted(w, r)) && Shifted(w, 0) == w
  {
  }

  lemma Count(r: bv6)
    ensures r as nat < 64 && (r < 32 <==> r as nat < 32) && (r == 0 <==> r as nat == 0)
    ensures r > 0 ==> (r - 1) as nat == r as nat - 1
  {
  }

  /** A number without its k low bits. */
  function Lowered(x: nat, k: nat): nat {
    Quotient(x, Pow2(k))
  }

  function Quotient(x: nat, p: nat): nat
    requires p > 0
  {
    x / p
  }

  lemma {:induction false} ShiftedValue(w: word, r: bv6, k: nat)
    requires r < 32 && r as nat == k
    ensures Value(Shifted(w, r)) == Lowered(Value(w), k)
    decreases k
  {
    Count(r);
    assert Pow2(0) == 1;
    ShiftedNext(w, if r == 0 then 0 else r - 1);
    hide Value, Shifted, Half, IsOdd;
    if r != 0 {
      var v := Shifted(w, r - 1);
      ShiftedValue(w, r - 1, k - 1);
      Halves(v);
      FromBits(Value(v), Value(Half(v)), if IsOdd(v) then 1 else 0);
      DivTwice(Value(w), Pow2(k - 1));
    }
  }

  lemma DivTwice(x: nat, p: nat)
    requires p > 0
    ensures x / p / 2 == x / (2 * p)
  {
    var q, r := x / p, x % p;
    assert x == p * q + r;
    var h, b := q / 2, q % 2;
    assert x == (2 * p) * h + (p * b + r) by {
      assert p * q == p * (2 * h + b);
      assert p * (2 * h) == (2 * p) * h;
    }
    QuotientIs(x, 2 * p, h, p * b + r);
  }

  lemma QuotientIs(x: nat, p: nat, q: nat, r: nat)
    requires p > 0 && x == p * q + r && r < p
    ensures x / p == q
  {
    DivMod(x, p);
    UniqueRemainder(x, p, q, r);
    assert x / p * p == q * p;
    Cancel(x / p, q, p);
  }

  lemma RotlNext(w: word, n: bv6)
    requires 0 < n < 31
    ensures Rotl(w, n + 1) == Rotl(Rotl(w, n), 1)
  {
    calc {
      Rotl(w, n + 1);
      (w << (n + 1)) | (w >> (32 - (n + 1)));
      Rotl((w << n) | (w >> (32 - n)), 1);
      Rotl(Rotl(w, n), 1);
    }
  }

  lemma RotlOnce(w: word)
    ensures Rotl(w, 1) == Plus(Plus(w, w), TopOf(w))
    ensures TopOf(w) == if w >= 0x8000_0000 then 1 else 0
  {
    DoubleOr(w);
  }

  lemma DoubleOr(w: word)
    ensures (w << 1) | (w >> 31) == w + w + (w >> 31)
  {
  }

  function TopOf(w: word): word {
    w >> 31
  }

  /** x turned left by n bits of 32: times 2^n, what goes out at the top coming in
      at the bottom. */
  function Rotated(x: nat, n: nat): nat
    requires n <= 32
  {
    Turned(x, Pow2(n), Pow2(32 - n))
  }

  function Turned(x: nat, p: nat, q: nat): nat
    requires q > 0
  {
    x * p % TWO32 + x / q
  }

  function Product(a: nat, b: nat): nat {
    a * b
  }

  /** x as its n high and 32 - n low bits. */
  lemma RotatedParts(x: nat, n: nat, hi: nat, lo: nat)
    requires n <= 32 && x == Product(hi, Pow2(32 - n)) + lo && lo < Pow2(32 - n) && hi < Pow2(n)
    ensures Rotated(x, n) == Product(lo, Pow2(n)) + hi
  {
    hide Pow2;
    var p, q := Pow2(32 - n), Pow2(n);
    Pow2Add(32 - n, n);
    TwoTo32();
    assert p * hi == hi * p;
    QuotientIs(x, p, hi, lo);
    LessTimes(lo, p, q);
    assert x * q == TWO32 * hi + lo * q by { SplitProduct(hi, p, lo, q); }
    UniqueRemainder(x * q, TWO32, hi, lo * q);
  }

  lemma SplitProduct(hi: nat, p: nat, lo: nat, q: nat)
    ensures (hi * p + lo) * q == (p * q) * hi + lo * q
  {
  }

  lemma TwoTo32()
    ensures Pow2(32) == TWO32 && Pow2(31) == 0x8000_0000 && Pow2(1) == 2
  {
    Pow2Four();
    Pow2Add(4, 4);
    Pow2Add(8, 8);
    Pow2Add(16, 16);
    assert Pow2(32) == 2 * Pow2(31);
    assert Pow2(0) == 1;
  }

  lemma HighAndLow(x: nat, n: nat) returns (hi: nat, lo: nat)
    requires n <= 32 && x < TWO32
    ensures x == Product(hi, Pow2(32 - n)) + lo && lo < Pow2(32 - n) && hi < Pow2(n)
  {
    hide Pow2;
    var p := Pow2(32 - n);
    DivMod(x, p);
    hi, lo := x / p, x % p;
    Pow2Add(32 - n, n);
    TwoTo32();
    if hi >= Pow2(n) {
      MoreTimes(Pow2(n), hi, p);
    }
  }

  /** Turning by n and by one more is turning by n + 1. */
  lemma RotatedNext(x: nat, n: nat)
    requires n < 32 && x < TWO32
    ensures Rotated(x, n) < TWO32 && Rotated(Rotated(x, n), 1) == Rotated(x, n + 1)
  {
    var hi, lo := HighAndLow(x, n);
    var p, q := Pow2(n), Pow2(31 - n);
    PowSteps(n);
    hide Product, Pow2, Rotated;
    RotatedParts(x, n, hi, lo);
    var b, l := TopBit(lo, q);
    var m := Product(l, p) + hi;
    Halved(hi, q, b, l);
    Lifted(b, q, l, p, hi);
    RotatedParts(x, n + 1, 2 * hi + b, l);
    RotatedParts(Rotated(x, n), 1, b, m);
    Doubled(l, p, m);
  }

  lemma PowSteps(n: nat)
    requires n < 32
    ensures Pow2(32 - n) == 2 * Pow2(31 - n) && Pow2(n + 1) == 2 * Pow2(n)
    ensures Product(Pow2(31 - n), Pow2(n)) == 0x8000_0000
    ensures Pow2(32 - 1) == 0x8000_0000 && Pow2(1) == 2 && Pow2(32 - (n + 1)) == Pow2(31 - n)
  {
    hide Pow2;
    TwoTo32();
    Pow2Add(31 - n, n);
    Pow2Add(1, 31 - n);
    Pow2Add(1, n);
  }

  lemma TopBit(lo: nat, q: nat) returns (b: nat, l: nat)
    requires lo < 2 * q
    ensures lo == Product(b, q) + l && l < q && b < 2
  {
    b, l := if lo < q then 0 else 1, if lo < q then lo else lo - q;
  }

  lemma Halved(hi: nat, q: nat, b: nat, l: nat)
    ensures Product(hi, 2 * q) + (Product(b, q) + l) == Product(2 * hi + b, q) + l
  {
  }

  lemma Lifted(b: nat, q: nat, l: nat, p: nat, hi: nat)
    requires Product(q, p) == 0x8000_0000 && b < 2 && l < q && hi < p
    ensures Product(Product(b, q) + l, p) == Product(b, 0x8000_0000) + Product(l, p)
    ensures Product(l, p) + hi < 0x8000_0000 && Product(b, 0x8000_0000) <= 0x8000_0000
  {
    assert (b * q + l) * p == b * (q * p) + l * p;
    LessTimes(l, q, p);
  }

  lemma Doubled(l: nat, p: nat, m: nat)
    ensures Product(m, 2) == 2 * m && Product(l, 2 * p) == 2 * Product(l, p)
  {
  }

  lemma TopValue(w: word)
    ensures w >= 0x8000_0000 <==> Value(w) >= 0x8000_0000
    ensures Value(0) == 0 && Value(1) == 1
  {
  }

  lemma OnceValue(w: word)
    ensures Value(Rotl(w, 1)) == Rotated(Value(w), 1)
  {
    RotlOnce(w);
    TopValue(w);
    ValueBelow(w);
    TwoTo32();
    hide Value, Plus, Rotl, TopOf, Pow2;
    PlusValue(w, w);
    PlusValue(Plus(w, w), TopOf(w));
    TwiceAndTop(Value(w));
  }

  lemma TwiceAndTop(x: nat)
    requires x < TWO32
    ensures ((x + x) % TWO32 + if x >= 0x8000_0000 then 1 else 0) % TWO32 == x * 2 % TWO32 + x / 0x8000_0000
  {
  }

  lemma {:induction false} RotlValue(w: word, n: bv6)
    requires 0 < n < 32
    ensures n as nat <= 32 && Value(Rotl(w, n)) == Rotated(Value(w), n as nat)
    decreases n as nat
  {
    Count(n);
    if n == 1 {
      assert n as nat == 1;
      OnceValue(w);
    } else {
      Count(n - 1);
      RotlNext(w, n - 1);
      ValueBelow(w);
      hide Value, Rotl, Rotated, Pow2;
      RotlValue(w, n - 1);
      OnceValue(Rotl(w, n - 1));
      RotatedNext(Value(w), n as nat - 1);
    }
  }
}
