/** Parsing a numeral into a BCD coefficient and an exponent. */
module Parsing {
  import opened Arith
  import opened Bcd
  import opened Numeral

  /** The two decimal formats: how many digits they count while parsing. */
  datatype Format = D32 | D64

  function Counted(f: Format): (n: nat)
    ensures n > 0
  {
    if f.D32? then 7 else 15
  }

  /** The digits that go into the coefficient. */
  function Kept(f: Format, all: string): (kept: string)
    ensures AllDigits(all) ==> AllDigits(kept)
  {
    if |all| <= Counted(f) then all else all[..Counted(f)]
  }

  function Dropped(f: Format, all: string): (dropped: string)
    ensures AllDigits(all) ==> AllDigits(dropped)
  {
    if |all| <= Counted(f) then [] else all[Counted(f)..]
  }

  /** The coefficient is full exactly where the point stands: then the first
      dropped digit is not looked at. */
  predicate FullAtPoint(f: Format, p: Parts) {
    |p.ints| == Counted(f) && p.fracs != []
  }

  /** A dropped digit of 5 or more asks for rounding. */
  predicate Rounds(f: Format, p: Parts) {
    var d := Dropped(f, Digits(p));
    d != [] && d[0] >= '5' && !FullAtPoint(f, p)
  }

  // ----- rounding a BCD word -----

  /** Trailing nibbles that a step of one carries through: nines going up,
      zeros going down. */
  function Carried(mant: nat, up: bool): nat
    requires IsBcd(mant) && (up || mant > 0)
  {
    if up then (if mant % 16 == 9 then 1 + Carried(mant / 16, up) else 0)
    else if mant % 16 == 0 then 1 + Carried(mant / 16, up)
    else 0
  }

  /** What is left once those nibbles are shifted out. */
  function Rest(mant: nat, up: bool): nat
    requires IsBcd(mant) && (up || mant > 0)
  {
    if up then (if mant % 16 == 9 then Rest(mant / 16, up) else mant)
    else if mant % 16 == 0 then Rest(mant / 16, up)
    else mant
  }

  /** The word after the lowest nibble of rest has been replaced: decimal64 keeps
      only 32 bits of it, since its mask is a 32-bit constant. */
  function Masked(f: Format, rest: nat): nat {
    if f.D32? then rest else rest % 0x1_0000_0000
  }

  function RoundedBcd(f: Format, mant: nat, up: bool): nat
    requires IsBcd(mant) && (up || mant > 0)
  {
    var r, k := Rest(mant, up), Carried(mant, up);
    var m := Masked(f, r);
    (if up then m + 1 else if m > 0 then m - 1 else 0) * Pow16(k)
  }

  /** A nibble plus a step, in unsigned arithmetic: below zero it wraps to a
      number far above nine. */
  function AddNibble(f: Format, n: nat, roff: int): nat {
    (n + roff) % if f.D32? then 0x1_0000_0000 else 0x1_0000_0000_0000_0000
  }

  lemma AddNibbleIs(f: Format, n: nat, roff: int)
    requires n <= 9 && (roff == 1 || roff == -1)
    ensures AddNibble(f, n, roff) > 9 <==> n == (if roff == 1 then 9 else 0)
    ensures AddNibble(f, n, roff) <= 9 ==> AddNibble(f, n, roff) == n + roff
  {
  }

  lemma StepThrough(mant: nat, up: bool)
    requires IsBcd(mant) && (up || mant > 0)
    ensures mant % 16 <= 9 && IsBcd(mant / 16)
    ensures mant % 16 == (if up then 9 else 0) ==>
      ((up || mant / 16 > 0) && mant / 16 < mant
       && Rest(mant, up) == Rest(mant / 16, up) && Carried(mant, up) == 1 + Carried(mant / 16, up))
    ensures mant % 16 != (if up then 9 else 0) ==> Rest(mant, up) == mant && Carried(mant, up) == 0
  {
  }

  /** Replacing the lowest nibble by one more or one less. */
  lemma ReplaceNibble(f: Format, mant: nat, roff: int)
    requires roff == 1 || roff == -1
    requires mant % 16 <= 9 && mant % 16 != (if roff == 1 then 9 else 0)
    ensures var x := mant % 16 + roff;
      var r := if f.D32? then mant - mant % 16 + x else mant % 0x1_0000_0000 - mant % 16 + x;
      r == Masked(f, mant) + roff && r >= 0
  {
    assert mant % 0x1_0000_0000 % 16 == mant % 16;
  }

  method RoundBcd(f: Format, mant0: nat, roff: int) returns (mant: nat)
    requires roff == 1 || roff == -1
    requires IsBcd(mant0) && (roff == 1 || mant0 > 0)
    ensures mant == RoundedBcd(f, mant0, roff == 1)
  {
    hide IsBcd, Rest, Carried, AddNibble, Masked;
    ghost var up := roff == 1;
    var sh: nat := 0;
    mant := mant0;
    StepThrough(mant, up);
    AddNibbleIs(f, mant % 16, roff);
    var x := AddNibble(f, mant % 16, roff);
    while x > 9
      invariant IsBcd(mant) && (up || mant > 0) && mant % 16 <= 9
      invariant x == AddNibble(f, mant % 16, roff)
      invariant x > 9 <==> mant % 16 == (if up then 9 else 0)
      invariant x <= 9 ==> x == mant % 16 + roff
      invariant Rest(mant, up) == Rest(mant0, up) && sh + Carried(mant, up) == Carried(mant0, up)
      decreases mant
    {
      StepThrough(mant, up);
      mant := mant / 16;
      sh := sh + 1;
      StepThrough(mant, up);
      AddNibbleIs(f, mant % 16, roff);
      x := AddNibble(f, mant % 16, roff);
    }
    StepThrough(mant, up);
    ReplaceNibble(f, mant, roff);
    mant := if f.D32? then mant - mant % 16 + x else mant % 0x1_0000_0000 - mant % 16 + x;
    mant := mant * Pow16(sh);
  }

  /** The one case the loop has no answer for: a coefficient of zero stepped down
      asks for another turn, and the turn leaves it zero. */
  lemma ZeroKeepsTurning(f: Format, mant: nat)
    requires IsBcd(mant)
    ensures (AddNibble(f, mant % 16, -1) > 9 && mant / 16 == mant) <==> mant == 0
  {
    AddNibbleIs(f, mant % 16, -1);
  }

  // ----- what rounding does to the value -----

  lemma {:induction false} CarriedUp(mant: nat)
    requires IsBcd(mant)
    ensures var r := Rest(mant, true); IsBcd(r) && r % 16 < 9
    ensures Val(mant) + 1 == (Val(Rest(mant, true)) + 1) * Pow10(Carried(mant, true))
  {
    ValParts(mant);
    if mant % 16 == 9 {
      CarriedUp(mant / 16);
      TimesTen(Val(Rest(mant, true)) + 1, 10, Pow10(Carried(mant / 16, true)));
    } else {
      assert (Val(mant) + 1) * Pow10(0) == Val(mant) + 1;
    }
  }

  lemma {:induction false} CarriedDown(mant: nat)
    requires IsBcd(mant) && mant > 0
    ensures var r := Rest(mant, false); IsBcd(r) && 0 < r % 16 <= 9
    ensures Val(mant) == Val(Rest(mant, false)) * Pow10(Carried(mant, false))
  {
    ValParts(mant);
    if mant % 16 == 0 {
      CarriedDown(mant / 16);
      TimesTen(Val(Rest(mant, false)), 10, Pow10(Carried(mant / 16, false)));
    } else {
      assert Val(mant) * Pow10(0) == Val(mant);
    }
  }

  lemma StepUp(m: nat)
    requires IsBcd(m) && m % 16 < 9
    ensures IsBcd(m + 1) && Val(m + 1) == Val(m) + 1
  {
    assert (m + 1) / 16 == m / 16 && (m + 1) % 16 == m % 16 + 1;
    ValParts(m + 1);
    ValParts(m);
  }

  lemma StepDown(m: nat)
    requires IsBcd(m) && 0 < m % 16
    ensures IsBcd(m - 1) && Val(m - 1) == Val(m) - 1
  {
    assert (m - 1) / 16 == m / 16 && (m - 1) % 16 == m % 16 - 1;
    ValParts(m - 1);
    ValParts(m);
  }

  /** The mask keeps the low eight digits. */
  lemma MaskedValue(f: Format, r: nat)
    requires IsBcd(r)
    ensures var m := Masked(f, r);
      && IsBcd(m) && m % 16 == r % 16
      && (f.D64? ==> Val(r) == Val(r / 0x1_0000_0000) * 1_0000_0000 + Val(m))
  {
    var h, m := r / 0x1_0000_0000, r % 0x1_0000_0000;
    Halves(r);
    EightDigits();
    hide Val, IsBcd, Pow10, Pow16;
    ValSplit(h, m, 8);
  }

  lemma Halves(r: nat)
    ensures r == r / 0x1_0000_0000 * 0x1_0000_0000 + r % 0x1_0000_0000
    ensures r % 0x1_0000_0000 % 16 == r % 16
  {
  }

  lemma EightDigits()
    ensures Pow10(8) == 1_0000_0000 && Pow16(8) == 0x1_0000_0000
  {
    assert Pow10(4) == 1_0000 && Pow16(4) == 0x1_0000;
  }

  /** Adding one to a full decimal32 coefficient always adds exactly one, through
      all carries. */
  lemma RoundUpAddsOne(mant: nat)
    requires IsBcd(mant)
    ensures IsBcd(RoundedBcd(D32, mant, true)) && Val(RoundedBcd(D32, mant, true)) == Val(mant) + 1
  {
    hide Val, IsBcd, Pow10, Pow16, Rest, Carried;
    CarriedUp(mant);
    StepUp(Rest(mant, true));
    ValShift(Rest(mant, true) + 1, Carried(mant, true));
  }

  /** In decimal64 it does so exactly when at most eight digits are left once the
      trailing nines are shifted out. */
  lemma RoundUpAddsOne64(mant: nat)
    requires IsBcd(mant)
    ensures IsBcd(RoundedBcd(D64, mant, true))
    ensures Val(RoundedBcd(D64, mant, true)) == Val(mant) + 1 <==> Rest(mant, true) < 0x1_0000_0000
    ensures Rest(mant, true) >= 0x1_0000_0000 ==> Val(RoundedBcd(D64, mant, true)) < Val(mant)
  {
    hide Val, IsBcd, Pow10, Pow16, Rest, Carried;
    var r, k := Rest(mant, true), Carried(mant, true);
    var m, h := Masked(D64, r), r / 0x1_0000_0000;
    CarriedUp(mant);
    MaskedValue(D64, r);
    StepUp(m);
    ValShift(m + 1, k);
    HighPart(h, r);
    MoreIsMore(Val(m) + 1, Val(r) + 1, Pow10(k));
    if Val(h) > 0 {
      FarLess(Val(m) + 1, Val(r) + 1, Pow10(k));
    }
  }

  lemma FarLess(x: nat, y: nat, p: nat)
    requires p > 0 && x + 1 < y
    ensures x * p + 1 < y * p
  {
    NextMultiple(p, x, y);
    NextMultiple(p, x + 1, y);
    assert p * x == x * p && p * y == y * p && p * (x + 1) == p * x + p;
  }

  lemma HighPart(h: nat, r: nat)
    requires IsBcd(r) && h == r / 0x1_0000_0000
    ensures r < 0x1_0000_0000 <==> Val(h) == 0
  {
    EightDigits();
    hide Val, IsBcd, Pow10, Pow16;
    Halves(r);
    ValSplit(h, r % 0x1_0000_0000, 8);
    ValPositiveIff(h);
  }

  lemma ValPositiveIff(h: nat)
    requires IsBcd(h)
    ensures Val(h) == 0 <==> h == 0
  {
    if h > 0 {
      ValPositive(h);
    }
  }

  lemma MoreIsMore(x: nat, y: nat, p: nat)
    requires p > 0 && x <= y
    ensures x * p == y * p <==> x == y
  {
    if x < y {
      NextMultiple(p, x, y);
      assert p * x == x * p && p * y == y * p;
    }
  }

  /** Stepping a negative coefficient takes one off its last nonzero digit: the
      zeros behind it stay. */
  lemma RoundDownTakes(mant: nat)
    requires IsBcd(mant) && mant > 0
    ensures IsBcd(RoundedBcd(D32, mant, false))
    ensures Val(RoundedBcd(D32, mant, false)) == Val(mant) - Pow10(Carried(mant, false))
  {
    hide Val, IsBcd, Pow10, Pow16, Rest, Carried;
    var r, k := Rest(mant, false), Carried(mant, false);
    CarriedDown(mant);
    StepDown(r);
    ValShift(r - 1, k);
    OneLess(Val(r), Pow10(k));
  }

  /** In either format such a step leaves less than there was. */
  lemma RoundDownLoses(f: Format, mant: nat)
    requires IsBcd(mant) && mant > 0
    ensures IsBcd(RoundedBcd(f, mant, false)) && Val(RoundedBcd(f, mant, false)) < Val(mant)
  {
    hide Val, IsBcd, Pow10, Pow16, Rest, Carried;
    var r, k := Rest(mant, false), Carried(mant, false);
    CarriedDown(mant);
    MaskedValue(f, r);
    StepDown(Masked(f, r));
    ValShift(Masked(f, r) - 1, k);
    NextMultiple(Pow10(k), Val(Masked(f, r)) - 1, Val(r));
    Commutes(Val(Masked(f, r)) - 1, Val(r), Pow10(k));
  }

  lemma Commutes(x: nat, y: nat, p: nat)
    ensures x * p == p * x && y * p == p * y
  {
  }

  lemma OneLess(x: nat, p: nat)
    requires x > 0
    ensures (x - 1) * p == x * p - p
  {
  }

  // ----- the parser -----

  /** Coefficient, exponent and sign as the parser hands them on. */
  datatype BcdDecimal = BcdDecimal(mant: nat, expo: int, neg: bool)

  /** A negative numeral whose kept digits are all zero and whose first dropped
      digit asks for rounding: the rounding loop looks for a digit to take one
      from and never finds it. */
  predicate Spins(f: Format, p: Parts)
    requires AllDigits(p.ints) && AllDigits(p.fracs)
  {
    p.neg && Rounds(f, p) && BcdNumber(Kept(f, Digits(p))) == 0
  }

  function Parsed(f: Format, p: Parts): BcdDecimal
    requires AllDigits(p.ints) && AllDigits(p.fracs) && !Spins(f, p)
  {
    var kept := Kept(f, Digits(p));
    BcdNumberIs(kept);
    var m := BcdNumber(kept);
    BcdDecimal(
      if Rounds(f, p) then RoundedBcd(f, m, !p.neg) else m,
      |Dropped(f, Digits(p))| - |p.fracs|,
      p.neg)
  }

  /** The word that more digits turn m into. */
  function Pushed(m: nat, s: string): nat
    requires AllDigits(s)
  {
    if s == [] then m else Pushed(m, s[..|s| - 1]) * 16 + DigitOf(s[|s| - 1])
  }

  lemma {:induction false} PushedConcat(s: string, t: string)
    requires AllDigits(s) && AllDigits(t)
    ensures Pushed(BcdNumber(s), t) == BcdNumber(s + t)
    decreases |t|
  {
    if t == [] {
      assert s + t == s;
    } else {
      PushedConcat(s, t[..|t| - 1]);
      assert (s + t)[..|s + t| - 1] == s + t[..|t| - 1];
    }
  }

  method SkipZeros(src: string, from: nat) returns (sp: nat)
    requires from <= |src|
    ensures sp == ZerosEnd(src, from)
  {
    sp := from;
    while At(src, sp) == '0'
      invariant from <= sp <= |src| && ZerosEnd(src, sp) == ZerosEnd(src, from)
      decreases |src| - sp
    {
      sp := sp + 1;
    }
  }

  /** Picks up digits while there are any and the counter allows. */
  method TakeDigits(src: string, from: nat, nd0: nat, mant0: nat) returns (sp: nat, nd: nat, mant: nat)
    requires from <= |src|
    ensures sp == if DigitsEnd(src, from) - from <= nd0 then DigitsEnd(src, from) else from + nd0
    ensures nd == nd0 - (sp - from) && DigitsEnd(src, sp) == DigitsEnd(src, from)
    ensures mant == Pushed(mant0, src[from..sp])
  {
    sp, nd, mant := from, nd0, mant0;
    while IsDigit(At(src, sp)) && nd > 0
      invariant from <= sp <= DigitsEnd(src, from) && DigitsEnd(src, sp) == DigitsEnd(src, from)
      invariant nd == nd0 - (sp - from)
      invariant mant == Pushed(mant0, src[from..sp])
    {
      assert src[from..sp + 1][..sp - from] == src[from..sp];
      mant := mant * 16;
      mant := mant + DigitOf(src[sp]);
      sp := sp + 1;
      nd := nd - 1;
    }
  }

  method SkipDigits(src: string, from: nat) returns (sp: nat)
    requires from <= |src|
    ensures sp == DigitsEnd(src, from)
  {
    sp := from;
    while IsDigit(At(src, sp))
      invariant from <= sp <= |src| && DigitsEnd(src, sp) == DigitsEnd(src, from)
      decreases |src| - sp
    {
      sp := sp + 1;
    }
  }

  predicate AsksRounding(c: char) {
    '5' <= c <= '9'
  }

  lemma PushedZero(s: string)
    requires AllDigits(s)
    ensures Pushed(0, s) == BcdNumber(s)
  {
    PushedConcat([], s);
    assert [] + s == s;
  }

  /** The digits from z to sp, of which those up to c were taken. */
  lemma CutAt(f: Format, src: string, z: nat, c: nat, sp: nat)
    requires z <= c <= sp <= |src| && c == if sp - z <= Counted(f) then sp else z + Counted(f)
    ensures Kept(f, src[z..sp]) == src[z..c] && |Dropped(f, src[z..sp])| == sp - c
    ensures sp > c ==> Dropped(f, src[z..sp])[0] == src[c]
  {
    assert src[z..sp][..c - z] == src[z..c];
  }

  /** The same behind some digits taken already. */
  lemma CutAfter(f: Format, ints: string, src: string, z: nat, c: nat, sp: nat)
    requires |ints| <= Counted(f) && z <= c <= sp <= |src|
    requires c == if |ints| + sp - z <= Counted(f) then sp else z + Counted(f) - |ints|
    ensures Kept(f, ints + src[z..sp]) == ints + src[z..c] && |Dropped(f, ints + src[z..sp])| == sp - c
    ensures sp > c ==> Dropped(f, ints + src[z..sp])[0] == src[c]
  {
    assert ints + src[z..sp] == ints + src[z..c] + src[c..sp];
  }

  /** What the integer part leaves: its first digits, a count of those still
      wanted, and how many were passed over. */
  method ReadInteger(f: Format, src: string, z: nat) returns (sp: nat, nd: nat, mant: nat, expo: nat, roff: bool)
    requires z <= |src| && z == ZerosEnd(src, z)
    ensures sp == DigitsEnd(src, z)
    ensures mant == BcdNumber(Kept(f, src[z..sp]))
    ensures expo == |Dropped(f, src[z..sp])|
    ensures nd == Counted(f) - |Kept(f, src[z..sp])|
    ensures roff <==> |src[z..sp]| > Counted(f) && Dropped(f, src[z..sp])[0] >= '5'
  {
    hide BcdNumber, Pushed, Kept, Dropped;
    var c;
    c, nd, mant := TakeDigits(src, z, Counted(f), 0);
    roff := AsksRounding(At(src, c));
    sp := SkipDigits(src, c);
    expo := sp - c;
    CutAt(f, src, z, c, sp);
    PushedZero(src[z..c]);
  }

  /** What the fraction adds while digits are still wanted. */
  method ReadFraction(f: Format, src: string, from: nat, nd0: nat, mant0: nat, ghost ints: string)
      returns (sp: nat, mant: nat, taken: nat, roff: bool)
    requires from <= |src| && AllDigits(ints) && mant0 == BcdNumber(ints)
    requires 0 < nd0 == Counted(f) - |ints|
    ensures sp == DigitsEnd(src, from)
    ensures var fracs := src[from..sp];
      && AllDigits(Kept(f, ints + fracs)) && mant == BcdNumber(Kept(f, ints + fracs))
      && taken == |fracs| - |Dropped(f, ints + fracs)|
      && (roff <==> |ints + fracs| > Counted(f) && Dropped(f, ints + fracs)[0] >= '5')
  {
    hide BcdNumber, Pushed, Kept, Dropped;
    var c, nd;
    c, nd, mant := TakeDigits(src, from, nd0, mant0);
    taken := c - from;
    roff := AsksRounding(At(src, c));
    sp := SkipDigits(src, c);
    PushedConcat(ints, src[from..c]);
    CutAfter(f, ints, src, from, c, sp);
  }

  lemma IntegerOnly(f: Format, p: Parts)
    requires AllDigits(p.ints) && p.fracs == []
    ensures Kept(f, Digits(p)) == Kept(f, p.ints) && Dropped(f, Digits(p)) == Dropped(f, p.ints)
    ensures Rounds(f, p) <==> |p.ints| > Counted(f) && Dropped(f, p.ints)[0] >= '5'
  {
    assert Digits(p) == p.ints;
  }

  lemma FullInteger(f: Format, p: Parts)
    requires AllDigits(p.ints) && AllDigits(p.fracs) && |p.ints| >= Counted(f)
    ensures Kept(f, Digits(p)) == Kept(f, p.ints)
    ensures |Dropped(f, Digits(p))| == |Dropped(f, p.ints)| + |p.fracs|
    ensures Rounds(f, p) <==> |p.ints| > Counted(f) && Dropped(f, p.ints)[0] >= '5'
  {
    if |p.ints| > Counted(f) {
      assert Dropped(f, Digits(p))[0] == Dropped(f, p.ints)[0];
    }
  }

  lemma ShortInteger(f: Format, p: Parts)
    requires AllDigits(p.ints) && AllDigits(p.fracs) && |p.ints| < Counted(f)
    ensures Kept(f, p.ints) == p.ints && Dropped(f, p.ints) == []
    ensures Rounds(f, p) <==> |Digits(p)| > Counted(f) && Dropped(f, Digits(p))[0] >= '5'
  {
  }

  /** Where the integer part starts: behind a sign and the leading zeros. */
  function Start(s: string): (z: nat)
    ensures z <= |s|
  {
    ZerosEnd(s, if At(s, 0) == '-' || At(s, 0) == '+' then 1 else 0)
  }

  lemma SplitIs(s: string)
    ensures ZerosEnd(s, Start(s)) == Start(s)
    ensures var p, e := Split(s), DigitsEnd(s, Start(s));
      && p.neg == (At(s, 0) == '-') && p.ints == s[Start(s)..e]
      && (At(s, e) == '.' ==> p.fracs == s[e + 1..p.next] && p.next == DigitsEnd(s, e + 1))
      && (At(s, e) != '.' ==> p.fracs == [] && p.next == e)
  {
  }

  method ReadStart(src: string) returns (neg: bool, sp: nat)
    ensures neg == (At(src, 0) == '-') && sp == Start(src)
  {
    sp, neg := 0, false;
    if At(src, sp) == '-' {
      neg := true;
      sp := sp + 1;
    } else if At(src, sp) == '+' {
      sp := sp + 1;
    }
    sp := SkipZeros(src, sp);
  }

  /** What stands behind the integer part. */
  method ReadPoint(f: Format, src: string, from: nat, nd: nat, mant0: nat, expo0: int, roff0: bool, ghost p: Parts)
      returns (sp: nat, mant: nat, expo: int, roff: bool)
    requires from <= |src| && AllDigits(p.ints) && AllDigits(p.fracs)
    requires At(src, from) == '.' ==> p.next == DigitsEnd(src, from + 1) && p.fracs == src[from + 1..p.next]
    requires At(src, from) != '.' ==> p.fracs == [] && p.next == from
    requires !IsDigit(At(src, from))
    requires nd == Counted(f) - |Kept(f, p.ints)|
    requires mant0 == BcdNumber(Kept(f, p.ints)) && expo0 == |Dropped(f, p.ints)|
    requires roff0 <==> |p.ints| > Counted(f) && Dropped(f, p.ints)[0] >= '5'
    ensures sp == p.next
    ensures mant == BcdNumber(Kept(f, Digits(p)))
    ensures expo == |Dropped(f, Digits(p))| - |p.fracs|
    ensures roff <==> Rounds(f, p)
  {
    hide BcdNumber, Rounds, Kept, Dropped;
    sp, mant, expo, roff := from, mant0, expo0, roff0;
    CountIs(f, p.ints);
    if At(src, sp) == '.' && nd > 0 {
      ShortInteger(f, p);
      var taken, r;
      sp, mant, taken, r := ReadFraction(f, src, sp + 1, nd, mant, p.ints);
      expo := expo - taken;
      roff := roff || r;
    } else if At(src, sp) == '.' {
      FullInteger(f, p);
      roff := roff || AsksRounding(At(src, sp));
      sp := SkipDigits(src, sp + 1);
    } else {
      IntegerOnly(f, p);
    }
  }

  lemma CountIs(f: Format, s: string)
    ensures |Kept(f, s)| == if |s| <= Counted(f) then |s| else Counted(f)
    ensures |s| <= Counted(f) ==> Dropped(f, s) == []
    ensures AllDigits(s) ==> AllDigits(Kept(f, s)) && AllDigits(Dropped(f, s))
  {
  }

  method StrToBcd(f: Format, src: string) returns (b: BcdDecimal, on: nat)
    requires !Spins(f, Split(src))
    ensures b == Parsed(f, Split(src)) && on == Split(src).next
  {
    hide BcdNumber, RoundedBcd, Kept, Dropped, Rounds, Split, Start, IsBcd, Val, Pow16;
    ghost var p := Split(src);
    SplitIs(src);
    var neg, sp := ReadStart(src);
    var nd, mant, expo, roff;
    sp, nd, mant, expo, roff := ReadInteger(f, src, sp);
    sp, mant, expo, roff := ReadPoint(f, src, sp, nd, mant, expo, roff, p);
    ghost var all := Digits(p);
    CountIs(f, all);
    BcdNumberIs(Kept(f, all));
    if roff {
      mant := RoundBcd(f, mant, if neg then -1 else 1);
    }
    return BcdDecimal(mant, expo, neg), sp;
  }

  // ----- how far the result is from the numeral -----

  /** Kept and dropped digits make up the whole numeral. */
  lemma WholeNumber(f: Format, all: string)
    requires AllDigits(all)
    ensures AllDigits(Kept(f, all)) && AllDigits(Dropped(f, all))
    ensures Number(all) == Number(Kept(f, all)) * Pow10(|Dropped(f, all)|) + Number(Dropped(f, all))
    ensures Number(Dropped(f, all)) < Pow10(|Dropped(f, all)|)
  {
    assert all == Kept(f, all) + Dropped(f, all);
    NumberConcat(Kept(f, all), Dropped(f, all));
    NumberBound(Dropped(f, all));
  }

  /** The distance between the numeral and the result, in units of the numeral's
      last digit; the result's own last digit is worth Pow10(|Dropped|). */
  function Miss(f: Format, p: Parts): nat
    requires AllDigits(p.ints) && AllDigits(p.fracs) && !Spins(f, p)
  {
    Abs(Val(Parsed(f, p).mant) * Pow10(|Dropped(f, Digits(p))|) - Number(Digits(p)))
  }

  /** Which numerals are read to within half of the result's last digit: if the
      first dropped digit asks for rounding, those without a minus sign whose
      coefficient survives the mask; otherwise all those whose coefficient is not
      full right at the point, and of the others those whose dropped part is at most
      a half. */
  predicate ReadsClosely(f: Format, p: Parts)
    requires AllDigits(p.ints) && AllDigits(p.fracs)
  {
    var kept, d := Kept(f, Digits(p)), Dropped(f, Digits(p));
    CountIs(f, Digits(p));
    BcdNumberIs(kept);
    if Rounds(f, p) then !p.neg && (f.D32? || Rest(BcdNumber(kept), true) < 0x1_0000_0000)
    else !FullAtPoint(f, p) || 2 * Number(d) <= Pow10(|d|)
  }

  lemma WithinHalf(f: Format, p: Parts)
    requires AllDigits(p.ints) && AllDigits(p.fracs) && !Spins(f, p)
    ensures 2 * Miss(f, p) <= Pow10(|Dropped(f, Digits(p))|) <==> ReadsClosely(f, p)
  {
    var all := Digits(p);
    var kept, d := Kept(f, all), Dropped(f, all);
    var m := BcdNumber(kept);
    var ulp := Pow10(|d|);
    WholeNumber(f, all);
    BcdNumberIs(kept);
    if Rounds(f, p) {
      FirstDigit(d);
      var r := RoundedBcd(f, m, !p.neg);
      if p.neg {
        RoundDownLoses(f, m);
      } else if f.D32? {
        RoundUpAddsOne(m);
      } else {
        RoundUpAddsOne64(m);
      }
      hide Rounds, RoundedBcd, Number, Val, Pow10, FullAtPoint, Kept, Dropped, BcdNumber, IsBcd, Rest;
      MissIs(Number(kept), ulp, Number(d), Val(r));
    } else {
      if d != [] {
        FirstDigit(d);
      }
      hide Number, Val, Pow10, RoundedBcd, BcdNumber, IsBcd, Rest;
      MissIs(Number(kept), ulp, Number(d), Number(kept));
    }
  }

  /** The distance for each result the rounding may give. */
  lemma MissIs(k: nat, ulp: nat, d: nat, r: nat)
    requires d < ulp
    ensures r == k ==> Abs(r * ulp - (k * ulp + d)) == d
    ensures r == k + 1 ==> Abs(r * ulp - (k * ulp + d)) == ulp - d
    ensures r < k ==> Abs(r * ulp - (k * ulp + d)) >= ulp + d
  {
    if r < k {
      NextMultiple(ulp, r, k);
      assert ulp * r == r * ulp && ulp * k == k * ulp;
    }
  }

  /** A numeral is read without any loss exactly if only zeros are dropped. */
  lemma ExactlyRead(f: Format, p: Parts)
    requires AllDigits(p.ints) && AllDigits(p.fracs) && !Spins(f, p)
    ensures Miss(f, p) == 0 <==> Number(Dropped(f, Digits(p))) == 0
  {
    var kept, d := Kept(f, Digits(p)), Dropped(f, Digits(p));
    WholeNumber(f, Digits(p));
    BcdNumberIs(kept);
    if Number(d) == 0 {
      NoneDropped(f, p);
    }
    var v := Val(Parsed(f, p).mant);
    hide Rounds, RoundedBcd, Number, Val, Pow10, Kept, Dropped, BcdNumber, IsBcd;
    SameHigh(v, Number(kept), Number(d), Pow10(|d|));
  }

  lemma SameHigh(v: nat, k: nat, d: nat, ulp: nat)
    requires d < ulp
    ensures v * ulp == k * ulp + d <==> v == k && d == 0
  {
    if v < k {
      NextMultiple(ulp, v, k);
    } else if k < v {
      NextMultiple(ulp, k, v);
    }
    assert ulp * v == v * ulp && ulp * k == k * ulp;
  }

  /** Dropped zeros ask for no rounding. */
  lemma NoneDropped(f: Format, p: Parts)
    requires AllDigits(p.ints) && AllDigits(p.fracs) && Number(Dropped(f, Digits(p))) == 0
    ensures !Rounds(f, p) && !Spins(f, p)
  {
    var d := Dropped(f, Digits(p));
    if d != [] {
      FirstDigit(d);
    }
  }

  /** An unsigned decimal32 numeral of any length is read to within one unit of
      its last kept digit, and to within half of one unless the coefficient is full
      right at the point and what is dropped is more than half. */
  lemma UnsignedMiss(p: Parts)
    requires AllDigits(p.ints) && AllDigits(p.fracs) && !p.neg
    ensures var ulp, d := Pow10(|Dropped(D32, Digits(p))|), Dropped(D32, Digits(p));
      && AllDigits(d) && Miss(D32, p) < ulp
      && (2 * Miss(D32, p) <= ulp <==> !(FullAtPoint(D32, p) && 2 * Number(d) > ulp))
  {
    var all := Digits(p);
    var kept, d := Kept(D32, all), Dropped(D32, all);
    WholeNumber(D32, all);
    BcdNumberIs(kept);
    if d != [] {
      FirstDigit(d);
    }
    if Rounds(D32, p) {
      RoundUpAddsOne(BcdNumber(kept));
    }
    hide RoundedBcd, Number, Val, Pow10, FullAtPoint, Kept, Dropped, BcdNumber;
    MissIs(Number(kept), Pow10(|d|), Number(d), Number(kept) + if Rounds(D32, p) then 1 else 0);
  }

  /** A full coefficient at the point does miss by more than half. */
  lemma FullAtPointMisreads()
    ensures var p := Split("1234567.9"); FullAtPoint(D32, p) && !ReadsClosely(D32, p)
  {
    var s := "1234567.9";
    assert ZerosEnd(s, 0) == 0 && DigitsEnd(s, 0) == 7 && DigitsEnd(s, 8) == 9;
    assert Split(s).ints == "1234567" && Split(s).fracs == "9";
  }

  /** And small negative numerals do make the rounding loop run on. */
  lemma SmallNegativeSpins(p: Parts)
    requires AllDigits(p.fracs) && p.neg && p.ints == []
    requires |p.fracs| > 7 && p.fracs[7] >= '5' && forall i :: 0 <= i < 7 ==> p.fracs[i] == '0'
    ensures Spins(D32, p)
  {
    var kept := Kept(D32, Digits(p));
    NumberOfZeros(kept);
    BcdNumberIs(kept);
    hide Number, BcdNumber, Val;
    ValPositiveIff(BcdNumber(kept));
    assert Dropped(D32, Digits(p))[0] == p.fracs[7];
  }

  lemma SpinsOn()
    ensures Spins(D32, Split("-.00000009"))
  {
    var t := "-.00000009";
    assert ZerosEnd(t, 1) == 1 && DigitsEnd(t, 1) == 1 && DigitsEnd(t, 2) == 10;
    hide Spins;
    SmallNegativeSpins(Split(t));
  }
}
