/** Reading back what the printer wrote. */
module ReadBack {
  import opened Arith
  import opened Bcd
  import opened Numeral
  import opened Parsing
  import opened Printing

  // ----- taking a written numeral apart -----

  lemma {:induction false} DigitsEndIs(s: string, i: nat, e: nat)
    requires i <= e <= |s| && !IsDigit(At(s, e))
    requires forall k :: i <= k < e ==> IsDigit(s[k])
    ensures DigitsEnd(s, i) == e
    decreases e - i
  {
    if i < e {
      DigitsEndIs(s, i + 1, e);
    }
  }

  lemma {:induction false} ZerosEndIs(s: string, i: nat, e: nat)
    requires i <= e <= |s| && At(s, e) != '0'
    requires forall k :: i <= k < e ==> s[k] == '0'
    ensures ZerosEnd(s, i) == e
    decreases e - i
  {
    if i < e {
      ZerosEndIs(s, i + 1, e);
    }
  }

  /** What may follow a numeral without becoming part of it. */
  predicate Delimits(rest: string) {
    !IsDigit(At(rest, 0)) && At(rest, 0) != '.'
  }

  function Written(neg: bool, zeros: nat, ints: string, point: bool, fracs: string): string {
    (if neg then "-" else "") + Zeros(zeros) + ints + (if point then "." + fracs else "")
  }

  lemma DigitsRun(a: string, b: string, c: string)
    requires AllDigits(b) && !IsDigit(At(c, 0))
    ensures DigitsEnd(a + b + c, |a|) == |a| + |b| && (a + b + c)[|a|..|a| + |b|] == b
    ensures At(a + b + c, |a| + |b|) == At(c, 0)
  {
    DigitsEndIs(a + b + c, |a|, |a| + |b|);
  }

  lemma ZerosRun(a: string, k: nat, c: string)
    requires At(c, 0) != '0'
    ensures ZerosEnd(a + Zeros(k) + c, |a|) == |a| + k
  {
    ZerosEndIs(a + Zeros(k) + c, |a|, |a| + k);
  }

  function Sign(neg: bool): string {
    if neg then "-" else ""
  }

  function Fraction(point: bool, fracs: string): string {
    if point then "." + fracs else ""
  }

  /** Taking a written numeral apart gives the parts it was written from. */
  lemma SplitWritten(neg: bool, zeros: nat, ints: string, point: bool, fracs: string, rest: string)
    requires AllDigits(ints) && AllDigits(fracs) && (ints != [] ==> ints[0] != '0') && (!point ==> fracs == [])
    requires zeros > 0 || ints != []
    requires Delimits(rest)
    ensures var t := Written(neg, zeros, ints, point, fracs);
      Split(t + rest) == Parts(neg, ints, point, fracs, |t|)
  {
    hide *;
    var t := Written(neg, zeros, ints, point, fracs);
    var z, e := |Sign(neg)| + zeros, |Sign(neg)| + zeros + |ints|;
    Joined(neg, zeros, ints, point, fracs, rest);
    BehindInts(point, fracs, rest);
    WrittenParts(neg, zeros, ints, Fraction(point, fracs) + rest);
    if point {
      DigitsRun(Sign(neg) + Zeros(zeros) + ints + ".", fracs, rest);
    }
    SplitFrom(t + rest, neg, z, e, |t|, point);
  }

  lemma Joined(neg: bool, zeros: nat, ints: string, point: bool, fracs: string, rest: string)
    requires !point ==> fracs == []
    ensures var t, a := Written(neg, zeros, ints, point, fracs), Sign(neg) + Zeros(zeros) + ints;
      && t + rest == Sign(neg) + Zeros(zeros) + (ints + (Fraction(point, fracs) + rest))
      && |t| == |a| + (if point then 1 + |fracs| else 0)
      && (point ==> t + rest == (a + ".") + fracs + rest && |a + "."| == |a| + 1)
      && |a| == |Sign(neg)| + zeros + |ints|
  {
  }

  lemma BehindInts(point: bool, fracs: string, rest: string)
    requires Delimits(rest)
    ensures At(Fraction(point, fracs) + rest, 0) == if point then '.' else At(rest, 0)
    ensures !IsDigit(At(Fraction(point, fracs) + rest, 0)) && !IsDigit(At(rest, 0)) && At(rest, 0) != '.'
  {
  }

  lemma SplitFrom(s: string, neg: bool, z: nat, e: nat, f: nat, point: bool)
    requires (At(s, 0) == '-' <==> neg) && At(s, 0) != '+'
    requires z == ZerosEnd(s, |Sign(neg)|) && e == DigitsEnd(s, z) && e <= |s| && f <= |s|
    requires point <==> At(s, e) == '.'
    requires f == if point then DigitsEnd(s, e + 1) else e
    ensures Split(s) == Parts(neg, s[z..e], point, if point then s[e + 1..f] else [], f)
  {
  }

  lemma WrittenParts(neg: bool, zeros: nat, ints: string, more: string)
    requires AllDigits(ints) && (ints != [] ==> ints[0] != '0') && (zeros > 0 || ints != [])
    requires !IsDigit(At(more, 0))
    ensures var s := Sign(neg) + Zeros(zeros) + (ints + more);
      && (At(s, 0) == '-' <==> neg) && At(s, 0) != '+'
      && ZerosEnd(s, |Sign(neg)|) == |Sign(neg)| + zeros
      && var z, e := |Sign(neg)| + zeros, |Sign(neg)| + zeros + |ints|;
      DigitsEnd(s, z) == e && s[z..e] == ints && At(s, e) == At(more, 0)
  {
    var sign, zs := Sign(neg), Zeros(zeros);
    hide Zeros, ZerosEnd, DigitsEnd;
    assert sign + zs + (ints + more) == (sign + zs) + ints + more;
    Beginning(sign, zs, ints, more);
    ZerosRun(sign, zeros, ints + more);
    DigitsRun(sign + zs, ints, more);
  }

  lemma Beginning(sign: string, zs: string, ints: string, more: string)
    requires zs != [] || ints != []
    ensures At(sign + zs + ints + more, 0)
      == if sign != [] then sign[0] else if zs != [] then zs[0] else ints[0]
    ensures At(ints + more, 0) == if ints != [] then ints[0] else At(more, 0)
  {
  }

  /** The parts of a decimal in plain notation; zeros behind a coefficient of zero
      count as leading ones. */
  function TextParts(neg: bool, m: nat, e: int): Parts {
    var k := if e < 0 then -e else 0;
    Parts(neg, Whole(Shifted(m, k)) + (if e > 0 && m > 0 then Zeros(e) else ""), e < 0, if e < 0 then Low(m, k) else "",
          |Text(neg, m, e)|)
  }

  lemma SplitText(neg: bool, m: nat, e: int, rest: string)
    requires Delimits(rest)
    ensures Split(Text(neg, m, e) + rest) == TextParts(neg, m, e)
  {
    var p := TextParts(neg, m, e);
    var q := Shifted(m, if e < 0 then -e else 0);
    var zeros := if q > 0 then 0 else if e > 0 then 1 + e else 1;
    TextIsWritten(neg, m, e, zeros, p);
    hide Whole, Low, Shifted, Split, Text, Written, Delimits;
    SplitWritten(neg, zeros, p.ints, p.point, p.fracs, rest);
  }

  lemma TextIsWritten(neg: bool, m: nat, e: int, zeros: nat, p: Parts)
    requires p == TextParts(neg, m, e)
    requires zeros == if Shifted(m, if e < 0 then -e else 0) > 0 then 0 else if e > 0 then 1 + e else 1
    ensures AllDigits(p.ints) && AllDigits(p.fracs) && (p.ints != [] ==> p.ints[0] != '0')
    ensures zeros > 0 || p.ints != []
    ensures Text(neg, m, e) == Written(neg, zeros, p.ints, p.point, p.fracs)
  {
    OneMoreZero(e);
    if e < 0 {
      FractionIsWritten(neg, m, e, zeros);
    } else {
      assert Shifted(m, 0) == m;
      IntegerIsWritten(neg, m, e, zeros);
    }
  }

  lemma FractionIsWritten(neg: bool, m: nat, e: int, zeros: nat)
    requires e < 0 && zeros == if Shifted(m, -e) > 0 then 0 else 1
    ensures Text(neg, m, e) == Written(neg, zeros, Whole(Shifted(m, -e)), true, Low(m, -e))
  {
    assert Zeros(0) == "" && Zeros(1) == "0" by { OneMoreZero(e); }
    var q := Shifted(m, -e);
    assert q == 0 ==> Whole(q) == "";
    hide Whole, Low, Shifted, Zeros;
    assert Sign(neg) + "" + Whole(q) == Sign(neg) + Whole(q);
    assert Sign(neg) + "0" + "" == Sign(neg) + "0";
  }

  lemma IntegerIsWritten(neg: bool, m: nat, e: int, zeros: nat)
    requires e >= 0 && zeros == if m > 0 then 0 else if e > 0 then 1 + e else 1
    ensures Text(neg, m, e) == Written(neg, zeros, Whole(m) + (if e > 0 && m > 0 then Zeros(e) else ""), false, "")
  {
    OneMoreZero(e);
    assert Shifted(m, 0) == m && (m == 0 ==> Whole(m) == "");
    hide Whole, Shifted, Zeros;
    if m > 0 {
      assert Sign(neg) + "" + (Whole(m) + Zeros(e)) + "" == Sign(neg) + Whole(m) + Zeros(e);
      assert Sign(neg) + "" + (Whole(m) + "") + "" == Sign(neg) + Whole(m) + "";
    } else {
      assert Sign(neg) + ("0" + Zeros(e)) + "" + "" == Sign(neg) + "0" + Zeros(e);
      assert Sign(neg) + "0" + ("" + "") + "" == Sign(neg) + "0" + "";
    }
  }

  lemma OneMoreZero(e: int)
    ensures e > 0 ==> "0" + Zeros(e) == Zeros(1 + e)
    ensures Zeros(1) == "0" && Zeros(0) == ""
  {
    assert Zeros(1) == Zeros(0) + "0";
  }

  // ----- what the digits are worth -----

  lemma {:induction false} WholeNumberIs(m: nat)
    ensures BcdNumber(Whole(m)) == BcdOf(m)
  {
    if m > 0 {
      WholeNumberIs(m / 10);
    }
  }

  /** Integer digits and fraction digits together spell the coefficient. */
  lemma {:induction false} WholeAndLow(m: nat, k: nat)
    ensures BcdNumber(Whole(Shifted(m, k)) + Low(m, k)) == BcdOf(m)
  {
    if k == 0 {
      WholeNumberIs(m);
      assert Whole(m) + Low(m, 0) == Whole(m);
    } else {
      WholeAndLow(m / 10, k - 1);
      hide Whole, Shifted, Zeros;
      Longer(Whole(Shifted(m / 10, k - 1)), Low(m / 10, k - 1), m);
    }
  }

  lemma Longer(a: string, l: string, m: nat)
    requires AllDigits(a) && AllDigits(l) && BcdNumber(a + l) == BcdOf(m / 10)
    ensures BcdNumber(a + (l + [CharOf(m % 10)])) == BcdOf(m)
  {
    var c := CharOf(m % 10);
    assert a + (l + [c]) == a + l + [c];
    assert m > 0 ==> BcdOf(m) == BcdOf(m / 10) * 16 + m % 10;
    assert m == 0 ==> BcdOf(m) == BcdOf(m / 10) * 16 + m % 10;
    hide BcdOf, BcdNumber;
    BcdNumberAppend(a + l, c);
  }

  lemma {:induction false} WholeLength(m: nat, n: nat)
    requires m < Pow10(n)
    ensures |Whole(m)| <= n
  {
    if m > 0 {
      assert n > 0 by { assert Pow10(0) == 1; }
      WholeLength(m / 10, n - 1);
    }
  }

  lemma {:induction false} ShiftedLength(m: nat, k: nat)
    ensures Shifted(m, k) > 0 ==> |Whole(Shifted(m, k))| + k == |Whole(m)|
    ensures Shifted(m, k) <= m
  {
    if k > 0 {
      ShiftedLength(m / 10, k - 1);
    }
  }

  lemma AppendZeros(m: nat, j: nat)
    ensures AllDigits(Whole(m) + Zeros(j)) && Number(Whole(m) + Zeros(j)) == m * Pow10(j)
  {
    NumberOfZeros(Zeros(j));
    NumberConcat(Whole(m), Zeros(j));
    WholeNumberIs(m);
    BcdNumberIs(Whole(m));
    ValOfBcdOf(m);
  }

  // ----- the round trip -----

  /** How many digits of a coefficient are not counted when its text is read. */
  function Lost(f: Format, m: nat, e: int): nat {
    var n := if -e > |Whole(m)| then -e else |Whole(m)|;
    if n <= Counted(f) then 0 else n - Counted(f)
  }

  /** How many digits of the whole text are not. */
  function Uncounted(f: Format, m: nat, e: int): nat {
    if e <= 0 then Lost(f, m, e)
    else if m == 0 || |Whole(m)| + e <= Counted(f) then 0
    else |Whole(m)| + e - Counted(f)
  }

  /** The exponent read: a fraction keeps its own as long as all its digits are
      counted, zeros of a whole number are digits as long as there is room. */
  function ReadExpo(f: Format, m: nat, e: int): int {
    if e < 0 then e + Uncounted(f, m, e) else Uncounted(f, m, e)
  }

  /** Coefficients and exponents standing for the same number. */
  predicate EqualValue(m: nat, e: int, m1: nat, e1: int) {
    if e1 <= e then m1 == m * Pow10(e - e1) else m == m1 * Pow10(e1 - e)
  }

  lemma TextDigits(f: Format, neg: bool, m: nat, e: int)
    ensures var p := TextParts(neg, m, e);
      && AllDigits(p.ints) && AllDigits(p.fracs) && p.neg == neg
      && |p.fracs| == (if e < 0 then -e else 0)
      && |Dropped(f, Digits(p))| == Uncounted(f, m, e)
      && Number(Digits(p)) == m * Pow10(if e < 0 then 0 else e)
  {
    hide Text, Number, Pow10;
    if e < 0 {
      FractionDigits(neg, m, e);
    } else {
      WholeDigits(neg, m, e);
    }
    hide TextParts, Whole;
  }

  lemma FractionDigits(neg: bool, m: nat, e: int)
    requires e < 0
    ensures var p := TextParts(neg, m, e);
      && AllDigits(Digits(p)) && Number(Digits(p)) == m * Pow10(0)
      && |Digits(p)| == if -e > |Whole(m)| then -e else |Whole(m)|
  {
    var p, q := TextParts(neg, m, e), Shifted(m, -e);
    FractionText(neg, m, e);
    hide *;
    WholeAndLow(m, -e);
    BcdNumberIs(Digits(p));
    ValOfBcdOf(m);
    TimesOne(m);
    WholeCut(m, -e);
  }

  lemma WholeCut(m: nat, k: nat)
    ensures if Shifted(m, k) > 0 then |Whole(Shifted(m, k))| + k == |Whole(m)| else |Whole(m)| <= k
  {
    hide Whole, Shifted, Pow10;
    ShiftedLength(m, k);
    if Shifted(m, k) == 0 {
      ShiftedIs(m, k);
      WholeLength(m, k);
    }
  }

  lemma FractionText(neg: bool, m: nat, e: int)
    requires e < 0
    ensures var p, q := TextParts(neg, m, e), Shifted(m, -e);
      && Digits(p) == Whole(q) + Low(m, -e) && |Digits(p)| == |Whole(q)| - e && AllDigits(Digits(p))
      && (q == 0 ==> |Whole(q)| == 0)
  {
    hide Text, Low;
    assert Shifted(m, -e) == 0 ==> Whole(Shifted(m, -e)) == "";
  }

  lemma TimesOne(m: nat)
    ensures m * Pow10(0) == m && Pow10(0) == 1
  {
  }

  lemma WholeDigits(neg: bool, m: nat, e: int)
    requires e >= 0
    ensures var p := TextParts(neg, m, e);
      && AllDigits(Digits(p)) && Number(Digits(p)) == m * Pow10(e)
      && |Digits(p)| == if m == 0 then 0 else |Whole(m)| + e
  {
    assert Shifted(m, 0) == m;
    var p := TextParts(neg, m, e);
    assert Digits(p) == if m > 0 then Whole(m) + Zeros(e) else "";
    hide Text, TextParts, Shifted, Pow10;
    if m > 0 {
      hide Whole;
      AppendZeros(m, e);
    } else {
      assert 0 * Pow10(e) == 0;
    }
  }

  /** What is dropped is a remainder. */
  lemma DroppedIs(f: Format, p: Parts)
    requires AllDigits(p.ints) && AllDigits(p.fracs)
    ensures Number(Dropped(f, Digits(p))) == Number(Digits(p)) % Pow10(|Dropped(f, Digits(p))|)
  {
    var ulp := Pow10(|Dropped(f, Digits(p))|);
    WholeNumber(f, Digits(p));
    hide Number, Pow10, Kept, Dropped;
    var k := Number(Kept(f, Digits(p)));
    assert k * ulp == ulp * k;
    UniqueRemainder(Number(Digits(p)), ulp, k, Number(Dropped(f, Digits(p))));
  }

  lemma Factor(m: nat, p: nat, q: nat)
    requires p > 0 && q > 0
    ensures p * q > 0 && ((m * q) % (p * q) == 0 <==> m % p == 0)
  {
    var k, r := m / p, m % p;
    assert m == p * k + r;
    FactorParts(m, p, q, k, r);
    UniqueRemainder(m * q, p * q, k, r * q);
  }

  lemma FactorParts(m: nat, p: nat, q: nat, k: nat, r: nat)
    requires m == p * k + r && r < p && q > 0
    ensures p * q > 0 && m * q == (p * q) * k + r * q && r * q < p * q && (r * q == 0 <==> r == 0)
  {
    NextMultiple(q, r, p);
    assert q * r == r * q && q * p == p * q;
    assert (p * k + r) * q == (p * q) * k + r * q;
    if r > 0 {
      LeastMultiple(q, r);
    }
  }

  /** Only zeros of the text are dropped if and only if only zeros of the
      coefficient are. */
  lemma OnlyZeros(f: Format, m: nat, e: int)
    ensures (m * Pow10(if e < 0 then 0 else e)) % Pow10(Uncounted(f, m, e)) == 0 <==> m % Pow10(Lost(f, m, e)) == 0
  {
    var lost, n := Lost(f, m, e), Uncounted(f, m, e);
    UncountedIs(f, m, e);
    TimesOne(m);
    hide *;
    if e <= 0 {
    } else if m == 0 {
      assert 0 * Pow10(e) == 0;
    } else if n > e {
      PowSum(lost, e);
      Factor(m, Pow10(lost), Pow10(e));
    } else {
      TimesOne(n);
      PowSum(e - n, n);
      TimesProduct(m, Pow10(e - n), Pow10(n));
      MultipleMod(m * Pow10(e - n), Pow10(n));
      assert (m * Pow10(e - n)) * Pow10(n) == Pow10(n) * (m * Pow10(e - n));
    }
  }

  lemma UncountedIs(f: Format, m: nat, e: int)
    ensures var lost, n := Lost(f, m, e), Uncounted(f, m, e);
      && (e <= 0 ==> n == lost)
      && (e > 0 && m == 0 ==> n == lost == 0)
      && (e > 0 && m > 0 ==> if n > e then n == lost + e else lost == 0)
  {
    assert m == 0 ==> |Whole(m)| == 0;
    hide Whole;
  }

  lemma TimesProduct(a: nat, b: nat, c: nat)
    ensures a * (b * c) == (a * b) * c
  {
  }

  /** Reading a coefficient v in steps of 10^d where the text says m 10^e. */
  lemma ValueRead(m: nat, e: int, v: nat, d: nat)
    ensures EqualValue(m, e, v, if e < 0 then e + d else d) <==> v * Pow10(d) == m * Pow10(if e < 0 then 0 else e)
  {
    hide Pow10;
    TimesOne(m);
    TimesOne(v);
    if e < 0 {
    } else if d <= e {
      PowSum(e - d, d);
      TimesProduct(m, Pow10(e - d), Pow10(d));
      MoreOrLess(v, m * Pow10(e - d), Pow10(d));
    } else {
      PowSum(d - e, e);
      TimesProduct(v, Pow10(d - e), Pow10(e));
      MoreOrLess(v * Pow10(d - e), m, Pow10(e));
    }
  }

  lemma MoreOrLess(x: nat, y: nat, p: nat)
    requires p > 0
    ensures x * p == y * p <==> x == y
  {
    if x <= y {
      MoreIsMore(x, y, p);
    } else {
      MoreIsMore(y, x, p);
    }
  }

  predicate ComesBack(neg: bool, m: nat, e: int, b: BcdDecimal) {
    b.neg == neg && IsBcd(b.mant) && EqualValue(m, e, Val(b.mant), b.expo)
  }

  /** The same about the parts of the text. */
  lemma ReadTextBack(f: Format, neg: bool, m: nat, e: int, p: Parts)
    requires p == TextParts(neg, m, e)
    ensures AllDigits(p.ints) && AllDigits(p.fracs)
    ensures !Spins(f, p) && ComesBack(neg, m, e, Parsed(f, p)) <==> m % Pow10(Lost(f, m, e)) == 0
    ensures !Spins(f, p) ==> Parsed(f, p).neg == neg && Parsed(f, p).expo == ReadExpo(f, m, e)
    ensures m % Pow10(Lost(f, m, e)) == 0 ==> Val(Parsed(f, p).mant) < Pow10(Counted(f))
  {
    hide Val, Pow10, Number, Dropped, Kept, Uncounted, Lost, TextParts, EqualValue, RoundedBcd, BcdNumber, IsBcd;
    TextDigits(f, neg, m, e);
    DroppedIs(f, p);
    OnlyZeros(f, m, e);
    if m % Pow10(Lost(f, m, e)) == 0 {
      NoneDropped(f, p);
      KeptBound(f, p);
    }
    if !Spins(f, p) {
      ExactlyRead(f, p);
      ParsedShape(f, p);
      ValueRead(m, e, Val(Parsed(f, p).mant), Uncounted(f, m, e));
    }
  }

  lemma ParsedShape(f: Format, p: Parts)
    requires AllDigits(p.ints) && AllDigits(p.fracs) && !Spins(f, p)
    ensures var b := Parsed(f, p);
      b.neg == p.neg && b.expo == |Dropped(f, Digits(p))| - |p.fracs| && IsBcd(b.mant)
  {
    var m := BcdNumber(Kept(f, Digits(p)));
    hide Val, IsBcd, Number, BcdNumber, Kept, Dropped, RoundedBcd;
    BcdNumberIs(Kept(f, Digits(p)));
    if Rounds(f, p) {
      if p.neg {
        RoundDownLoses(f, m);
      } else if f.D32? {
        RoundUpAddsOne(m);
      } else {
        RoundUpAddsOne64(m);
      }
    }
  }

  /** Printing a decimal and parsing the text, whatever follows it, stops right
      behind the numeral and gives back sign and value if and only if the digits
      that are not counted are all zero; otherwise another value comes back, or
      none.  The exponent is as ReadExpo says either way. */
  lemma PrintParse(f: Format, neg: bool, m: nat, e: int, rest: string)
    requires Delimits(rest)
    ensures var p := Split(Text(neg, m, e) + rest);
      && p.next == |Text(neg, m, e)|
      && (!Spins(f, p) && ComesBack(neg, m, e, Parsed(f, p)) <==> m % Pow10(Lost(f, m, e)) == 0)
      && (m % Pow10(Lost(f, m, e)) == 0 ==> Val(Parsed(f, p).mant) < Pow10(Counted(f)))
      && (!Spins(f, p) ==> Parsed(f, p).neg == neg && Parsed(f, p).expo == ReadExpo(f, m, e))
  {
    assert TextParts(neg, m, e).next == |Text(neg, m, e)|;
    hide *;
    SplitText(neg, m, e, rest);
    ReadTextBack(f, neg, m, e, Split(Text(neg, m, e) + rest));
  }

  /** Numbers all of whose digits are counted. */
  predicate Readable(f: Format, m: nat, e: int) {
    m < Pow10(Counted(f)) && -e <= Counted(f)
  }

  /** They come back with their coefficient and exponent, or with zeros written
      out. */
  lemma ReadableComesBack(f: Format, neg: bool, m: nat, e: int, rest: string)
    requires Readable(f, m, e) && Delimits(rest)
    ensures var p := Split(Text(neg, m, e) + rest);
      && !Spins(f, p) && ComesBack(neg, m, e, Parsed(f, p))
      && Val(Parsed(f, p).mant) < Pow10(Counted(f))
      && (e <= 0 ==> Val(Parsed(f, p).mant) == m && Parsed(f, p).expo == e)
      && (e > 0 ==> 0 <= Parsed(f, p).expo <= e)
  {
    WholeLength(m, Counted(f));
    assert Lost(f, m, e) == 0 && m % Pow10(0) == 0;
    assert e <= 0 ==> ReadExpo(f, m, e) == e;
    assert e > 0 ==> 0 <= ReadExpo(f, m, e) <= e;
    assert m * Pow10(0) == m;
    hide Split, Text, TextParts, Whole, Lost, Uncounted, ReadExpo, Spins, Rounds, Parsed, Val, IsBcd, Pow10;
    PrintParse(f, neg, m, e, rest);
  }

  lemma KeptBound(f: Format, p: Parts)
    requires AllDigits(p.ints) && AllDigits(p.fracs) && !Spins(f, p) && !Rounds(f, p)
    ensures Val(Parsed(f, p).mant) < Pow10(Counted(f))
  {
    var kept := Kept(f, Digits(p));
    BcdNumberIs(kept);
    NumberBound(kept);
    PowLess(|kept|, Counted(f));
  }
}
