/** Reading and printing 64-bit decimals. */
module Strings64 {
  import opened Arith
  import opened Words
  import opened Bcd
  import opened Numeral
  import opened Nibbles
  import opened Decimal
  import opened Declet
  import opened Decimal64
  import opened Coding64
  import opened Parsing
  import opened Printing
  import opened ReadBack

  // ----- printing -----

  /** The printed form: no sign on a zero, sixteen digits at most. */
  function Shown(x: Finite): string {
    Text(x.neg && x.coef != 0, x.coef % 1_0000_0000_0000_0000, x.expo)
  }

  /** The last cap characters, which is what is left of a text too long for its buffer. */
  function LastOf(t: string, cap: nat): string {
    if |t| <= cap then t else t[|t| - cap..]
  }

  lemma CutBackwards(t: string, r: string, cap: nat)
    requires Backwards(r) == t
    ensures Backwards(Cut(r, cap)) == LastOf(t, cap)
  {
  }

  /** The k low digits of m as nibbles. */
  function LowBcd(m: nat, k: nat): nat {
    if k == 0 then 0 else LowBcd(m / 10, k - 1) * 16 + m % 10
  }

  lemma {:induction false} LowBcdIs(q: nat, r: nat, k: nat)
    requires r < Pow10(k)
    ensures LowBcd(q * Pow10(k) + r, k) == BcdOf(r)
    decreases k
  {
    if k > 0 {
      var d, s := r % 10, r / 10;
      Regroup(q, 10, Pow10(k - 1), s, d);
      TenParts(q * Pow10(k - 1) + s, d);
      LowBcdIs(q, s, k - 1);
    }
  }

  lemma TenParts(h: nat, d: nat)
    requires d < 10
    ensures (h * 10 + d) / 10 == h && (h * 10 + d) % 10 == d
  {
  }

  /** The next digit goes on top. */
  lemma {:induction false} LowBcdTop(m: nat, k: nat)
    ensures LowBcd(m, k + 1) == LowBcd(m, k) + Shifted(m, k) % 10 * Pow16(k)
    decreases k
  {
    if k > 0 {
      LowBcdTop(m / 10, k - 1);
      hide LowBcd, Shifted;
      TimesTen(Shifted(m / 10, k - 1) % 10, 16, Pow16(k - 1));
    }
  }

  lemma {:induction false} ShiftedNext(m: nat, k: nat)
    ensures Shifted(m, k) / 10 == Shifted(m, k + 1)
    decreases k
  {
    if k > 0 {
      ShiftedNext(m / 10, k - 1);
    }
  }

  /** A nibble put on top of a word that moves down by one. */
  function PushTop(w: bv64, d: bv64): bv64 {
    (w >> 4) ^ (d << 60)
  }

  predicate IsNibble(d: bv64) {
    d < 16
  }

  lemma PushTopParts(w: bv64, d: bv64)
    requires IsNibble(d)
    ensures PushTop(w, d) == Sixteenth(d as bv4, (w >> 4) as bv60)
    ensures (d as bv4) as bv64 == d && ((w >> 4) as bv60) as bv64 == Next64(w)
  {
  }

  lemma Narrow(hi: bv4, lo: bv60)
    ensures Nat(hi as bv64) == hi as nat && Nat(lo as bv64) == lo as nat
  {
  }

  lemma PushTopNat(w: bv64, d: bv64)
    requires IsNibble(d)
    ensures Nat(PushTop(w, d)) == Nat(d) * 0x1000_0000_0000_0000 + Nat(w) / 16
  {
    PushTopParts(w, d);
    hide PushTop, IsNibble, Next64;
    Narrow(d as bv4, (w >> 4) as bv60);
    SixteenthValue(d as bv4, (w >> 4) as bv60);
    NextNat(w);
  }

  lemma NibbleBelow(d: bv64)
    ensures IsNibble(d) <==> Nat(d) < 16
  {
  }

  lemma PushStep(low: nat, d: nat, i: nat, w: nat)
    requires i < 16 && w == low * Pow16(16 - i)
    ensures d * 0x1000_0000_0000_0000 + w / 16 == (low + d * Pow16(i)) * Pow16(15 - i)
  {
    assert Pow16(16 - i) == 16 * Pow16(15 - i);
    SixteenNibbles(i);
    hide Pow16;
    PushArith(low, d, Pow16(i), Pow16(15 - i), w);
  }

  lemma PushArith(low: nat, d: nat, p: nat, q: nat, w: nat)
    requires w == low * (16 * q) && p * q == 0x1000_0000_0000_0000
    ensures d * 0x1000_0000_0000_0000 + w / 16 == (low + d * p) * q
  {
    TimesTen(low, 16, q);
    assert w == low * q * 16;
    assert d * (p * q) == d * p * q;
  }

  lemma {:induction false} SixteenNibbles(i: nat)
    requires i < 16
    ensures Pow16(i) * Pow16(15 - i) == 0x1000_0000_0000_0000
  {
    if i == 0 {
      SixteenDigits();
    } else {
      SixteenNibbles(i - 1);
      TimesTen(Pow16(15 - i), 16, Pow16(i - 1));
      assert Pow16(15 - (i - 1)) == 16 * Pow16(15 - i);
      Reassociate(Pow16(i - 1), Pow16(15 - i));
    }
  }

  lemma Reassociate(p: nat, q: nat)
    ensures p * (16 * q) == (16 * p) * q
  {
  }

  /** The loop that turns a binary coefficient into sixteen BCD nibbles, lowest
      digit first, each pushed in at the top. */
  method Reencode(coef: nat) returns (w: bv64)
    ensures Nat(w) == BcdOf(coef % 1_0000_0000_0000_0000)
  {
    hide Bits64, Nat, PushTop, LowBcd, Shifted, IsNibble, Pow16, BcdOf, Pow10;
    var m := coef;
    w := 0;
    var i: nat := 0;
    Beginning(coef);
    while i < 16
      invariant i <= 16 && m == Shifted(coef, i)
      invariant Nat(w) == LowBcd(coef, i) * Pow16(16 - i)
    {
      var digit := m % 10;
      m := m / 10;
      BitsNat(digit);
      NibbleBelow(Bits64(digit));
      PushTopNat(w, Bits64(digit));
      PushStep(LowBcd(coef, i), digit, i, Nat(w));
      LowBcdTop(coef, i);
      ShiftedNext(coef, i);
      w := PushTop(w, Bits64(digit));
      i := i + 1;
    }
    End(coef, Nat(w));
  }

  lemma Beginning(coef: nat)
    ensures Nat(0) == 0 && LowBcd(coef, 0) == 0 && Shifted(coef, 0) == coef
  {
  }

  lemma End(coef: nat, w: nat)
    requires w == LowBcd(coef, 16) * Pow16(0)
    ensures w == BcdOf(coef % 1_0000_0000_0000_0000)
  {
    assert Pow16(0) == 1;
    hide LowBcd, Pow10, Pow16;
    SixteenDigits();
    LowBcdIs(coef / 1_0000_0000_0000_0000, coef % 1_0000_0000_0000_0000, 16);
  }

  /** Printing a binary 64-bit decimal. */
  method BidToStr(buf: array<char>, at: nat, x: bv64) returns (n: nat)
    requires at <= buf.Length
    modifies buf
    ensures at + n <= buf.Length && buf[..at] == old(buf[..at])
    ensures buf[at..at + n] == LastOf(Shown(DecodeBid(x)), buf.Length - at)
    ensures at + n < buf.Length ==> buf[at + n] == '\0'
  {
    hide MantBid, QuantExpBid, SignBit, Nat, RevText, Text, BcdOf;
    var e, m := QuantExpBid(x), Nat(MantBid(x));
    var s := if m != 0 then SignBit(x) < 0 else false;
    var w := Reencode(m);
    n := BcdToStr(buf, at, s, Nat(w), e);
    RevTextBackwards(s, m % 1_0000_0000_0000_0000, e);
    CutBackwards(Shown(DecodeBid(x)), RevText(s, Nat(w), e), buf.Length - at);
  }

  lemma PackedZero(b: bv64)
    ensures IsBcd16(UnpackMant(MantDpd(b)))
    ensures UnpackMant(MantDpd(b)) == 0 <==> MantDpd(b) == 0
  {
    var c := MantDpd(b);
    LeadSmall(b);
    hide MantDpd;
    Coding64.DecletsFit(c);
    ZeroDeclets(c);
    hide Unpack, DecletAt, IsBcd16, Lead, UnpackBehind;
    UnpackZero(DecletAt(c, 0));
    UnpackZero(DecletAt(c, 1));
    UnpackZero(DecletAt(c, 2));
    UnpackZero(DecletAt(c, 3));
    UnpackZero(DecletAt(c, 4));
    UnpackedDigits(c, Lead(c));
  }

  lemma ZeroDeclets(c: bv64)
    ensures c == 0 <==>
      (DecletAt(c, 0) == 0 && DecletAt(c, 1) == 0 && DecletAt(c, 2) == 0 && DecletAt(c, 3) == 0
       && DecletAt(c, 4) == 0 && Lead(c) == 0)
  {
  }

  lemma UnpackZero(d: bv32)
    requires d < 0x400
    ensures Unpack(d) == 0 <==> d == 0
  {
  }

  lemma PackedNat(b: bv64)
    ensures var w := Nat(UnpackMant(MantDpd(b))); IsBcd(w) && (w == 0 <==> MantDpd(b) == 0) && w < TWO64
  {
    hide UnpackMant, MantDpd, IsBcd16, IsBcd, Pow16;
    PackedZero(b);
    var u := UnpackMant(MantDpd(b));
    Bcd16Is(u);
    BcdBitsNat(u, 16);
    SixteenDigits();
    BelowWord(u);
  }

  lemma CoefOf(w: nat)
    requires IsBcd(w) && w < TWO64
    ensures w == BcdOf(Val(w) % 1_0000_0000_0000_0000) && (Val(w) == 0 <==> w == 0)
  {
    hide Val, IsBcd, BcdOf, Pow10, Pow16;
    SixteenDigits();
    ValBound(w, 16);
    BcdOfVal(w);
    ValPositiveIff(w);
  }

  /** Printing a packed 64-bit decimal. */
  method DpdToStr(buf: array<char>, at: nat, x: bv64) returns (n: nat)
    requires at <= buf.Length
    modifies buf
    ensures at + n <= buf.Length && buf[..at] == old(buf[..at])
    ensures buf[at..at + n] == LastOf(Shown(DecodeDpd(x)), buf.Length - at)
    ensures at + n < buf.Length ==> buf[at + n] == '\0'
  {
    hide MantDpd, UnpackMant, QuantExpDpd, SignBit, Nat, RevText, Text, BcdOf, Val, IsBcd;
    PackedNat(x);
    CoefOf(Nat(UnpackMant(MantDpd(x))));
    var e, m, s := QuantExpDpd(x), MantDpd(x), false;
    ghost var coef := Val(Nat(UnpackMant(m)));
    var w: nat := 0;
    if m != 0 {
      s := SignBit(x) < 0;
      w := Nat(UnpackMant(m));
    }
    n := BcdToStr(buf, at, s, w, e);
    RevTextBackwards(s, coef % 1_0000_0000_0000_0000, e);
    CutBackwards(Shown(DecodeDpd(x)), RevText(s, w, e), buf.Length - at);
  }

  // ----- reading -----

  lemma RoundedBound(m: nat, up: bool)
    requires IsBcd(m) && (up || m > 0) && Val(m) < 1000_0000_0000_0000
    ensures var r := RoundedBcd(D64, m, up); IsBcd(r) && Val(r) <= 1000_0000_0000_0000
  {
    hide RoundedBcd, IsBcd, Val;
    if up {
      RoundUpAddsOne64(m);
    } else {
      RoundDownLoses(D64, m);
    }
  }

  lemma KeptBound15(all: string)
    requires AllDigits(all)
    ensures var m := BcdNumber(Kept(D64, all)); IsBcd(m) && Val(m) < 1000_0000_0000_0000
  {
    hide BcdNumber, Number, IsBcd, Val, Pow10, Pow16;
    var kept := Kept(D64, all);
    BcdNumberIs(kept);
    KeptIs(all);
    NumberBound(kept);
    PowLess(|kept|, 15);
    SixteenDigits();
  }

  lemma ParsedMant(p: Parts)
    requires AllDigits(p.ints) && AllDigits(p.fracs) && !Spins(D64, p)
    ensures var m := Parsed(D64, p).mant; IsBcd(m) && m < TWO64 && Val(m) <= 1000_0000_0000_0000
  {
    var m := BcdNumber(Kept(D64, Digits(p)));
    hide Rounds, RoundedBcd, Kept, BcdNumber, Number, IsBcd, Val, Pow10, Pow16;
    KeptBound15(Digits(p));
    if Rounds(D64, p) {
      RoundedBound(m, !p.neg);
    }
    SixteenDigits();
    ValBound(Parsed(D64, p).mant, 16);
  }

  lemma KeptIs(all: string)
    ensures |Kept(D64, all)| <= 15
  {
  }

  /** The binary word a numeral reads as. */
  function ReadBid(p: Parts): bv64
    requires AllDigits(p.ints) && AllDigits(p.fracs) && !Spins(D64, p)
  {
    var b := Parsed(D64, p);
    AssembleBid(Bits64(Val(b.mant) % 1000_0000_0000_0000), Bits64((b.expo + BIAS) % TWO64), SignWord(b.neg))
  }

  function ReadDpd(p: Parts): bv64
    requires AllDigits(p.ints) && AllDigits(p.fracs) && !Spins(D64, p)
  {
    var b := Parsed(D64, p);
    ParsedMant(p);
    AssembleDpd(Bits64(b.mant), Bits64((b.expo + BIAS) % TWO64), SignWord(b.neg))
  }

  method StrToBid(src: string) returns (r: bv64, on: nat)
    requires !Spins(D64, Split(src))
    ensures r == ReadBid(Split(src)) && on == Split(src).next
  {
    hide Parsed, Spins, Split, Val, IsBcd, AssembleBid, Bits64;
    var b;
    b, on := StrToBcd(D64, src);
    ParsedMant(Split(src));
    r := BcdToBid(b.mant, b.expo, b.neg);
  }

  method StrToDpd(src: string) returns (r: bv64, on: nat)
    requires !Spins(D64, Split(src))
    ensures r == ReadDpd(Split(src)) && on == Split(src).next
  {
    hide Parsed, Spins, Split, Val, IsBcd, AssembleDpd, Bits64;
    var b;
    b, on := StrToBcd(D64, src);
    ParsedMant(Split(src));
    r := AssembleDpd(Bits64(b.mant), Bits64((b.expo + BIAS) % TWO64), SignWord(b.neg));
  }

  /** The number that a numeral stands for once parsed. */
  function ParsedNumber(p: Parts): Finite
    requires AllDigits(p.ints) && AllDigits(p.fracs) && !Spins(D64, p)
  {
    var b := Parsed(D64, p);
    Finite(b.neg, Val(b.mant), b.expo)
  }

  lemma ReadBidIs(p: Parts)
    requires AllDigits(p.ints) && AllDigits(p.fracs) && !Spins(D64, p) && IsD64(ParsedNumber(p))
    ensures ReadBid(p) == EncodeBid(ParsedNumber(p).(coef := ParsedNumber(p).coef % 1000_0000_0000_0000))
  {
    hide Parsed, Spins, Val, AssembleBid, Bits64;
    SmallWord(ParsedNumber(p).expo + BIAS);
  }

  lemma SmallWord(n: nat)
    requires n <= 768
    ensures n % TWO64 == n
  {
  }

  lemma ReadDpdIs(p: Parts)
    requires AllDigits(p.ints) && AllDigits(p.fracs) && !Spins(D64, p) && IsD64(ParsedNumber(p))
    ensures ReadDpd(p) == EncodeDpd(ParsedNumber(p))
  {
    hide Parsed, Spins, Val, AssembleDpd, Bits64, IsBcd, BcdOf;
    ParsedMant(p);
    BcdOfVal(Parsed(D64, p).mant);
    SmallWord(ParsedNumber(p).expo + BIAS);
  }

  /** The two layouts read one numeral as one number, unless fifteen nines were
      rounded up: then the binary layout has lost everything, the packed one
      nothing. */
  lemma ReadersAgree(p: Parts)
    requires AllDigits(p.ints) && AllDigits(p.fracs) && !Spins(D64, p)
    requires IsD64(ParsedNumber(p)) && ParsedNumber(p).expo > -BIAS
    ensures DecodeDpd(ReadDpd(p)) == ParsedNumber(p)
    ensures DecodeBid(ReadBid(p)) == ParsedNumber(p) <==> ParsedNumber(p).coef != 1000_0000_0000_0000
    ensures ParsedNumber(p).coef == 1000_0000_0000_0000 ==> DecodeBid(ReadBid(p)).coef == 0
  {
    ParsedCoef(p);
    hide Parsed, Spins, ReadBid, ReadDpd, ParsedNumber, EncodeBid, EncodeDpd, DecodeBid, DecodeDpd;
    ReadBidIs(p);
    ReadDpdIs(p);
    LayoutsAgree(ParsedNumber(p));
  }

  lemma ParsedCoef(p: Parts)
    requires AllDigits(p.ints) && AllDigits(p.fracs) && !Spins(D64, p)
    ensures ParsedNumber(p).coef <= 1000_0000_0000_0000
  {
    hide Parsed, Spins, Val, IsBcd;
    ParsedMant(p);
  }

  lemma LayoutsAgree(x: Finite)
    requires IsD64(x) && x.expo > -BIAS && x.coef <= 1000_0000_0000_0000
    ensures var y := x.(coef := x.coef % 1000_0000_0000_0000);
      && DecodeDpd(EncodeDpd(x)) == x
      && (DecodeBid(EncodeBid(y)) == x <==> x.coef != 1000_0000_0000_0000)
      && (x.coef == 1000_0000_0000_0000 ==> DecodeBid(EncodeBid(y)).coef == 0)
  {
    hide EncodeBid, EncodeDpd, DecodeBid, DecodeDpd;
    BidRoundTrip(x.(coef := x.coef % 1000_0000_0000_0000));
    DpdRoundTrip(x);
  }

  // ----- an exponent just past the format -----

  lemma LowExponentBid(m: bv64, s: bv64)
    requires m < 0x8_0000_0000_0000
    ensures ExpoBid(AssembleBid(m, 768, s)) == 0
  {
  }

  lemma LowExponentDpd(d: bv64, top: bv64, s: bv64)
    requires d < 0x4_0000_0000_0000 && top <= 9
    ensures IsHalf(ExpoDpd(AssembleDeclets(d, top, 768, s)))
  {
  }

  predicate IsHalf(ex: bv64) {
    ex < 512
  }

  lemma HalfNat(ex: bv64)
    ensures IsHalf(ex) <==> Nat(ex) < 512
    ensures ex == 0 <==> Nat(ex) == 0
  {
  }

  lemma ShortMant(m: nat)
    requires m < 1000_0000_0000_0000
    ensures Bits64(m) < 0x8_0000_0000_0000
  {
    hide Bits64;
    BitsNat(m);
    BelowShort(Bits64(m));
  }

  lemma BelowShort(w: bv64)
    requires Nat(w) < 1000_0000_0000_0000
    ensures w < 0x8_0000_0000_0000
  {
  }

  lemma BitsPast()
    ensures Bits64(768) == 768
  {
    hide Bits64;
    BitsNat(768);
    SameWord(Bits64(768), 768);
  }

  lemma PastExponentBid(m: nat, s: bv64)
    requires m < 1000_0000_0000_0000
    ensures QuantExpBid(AssembleBid(Bits64(m), Bits64(768), s)) <= 0
  {
    hide Bits64, AssembleBid, ExpoBid, Nat;
    ShortMant(m);
    BitsPast();
    LowExponentBid(Bits64(m), s);
    HalfNat(0);
  }

  lemma PastExponentDpd(w: bv64, s: bv64)
    requires IsBcd16(w)
    ensures QuantExpDpd(AssembleDpd(w, Bits64(768), s)) < 114
  {
    hide Bits64, AssembleDeclets, ExpoDpd, Nat, Packed, Top, IsBcd16, IsHalf, Pack, Three;
    BitsPast();
    PackedFit(w);
    LowExponentDpd(Packed(w), Top(w), s);
    HalfNat(ExpoDpd(AssembleDpd(w, 768, s)));
  }

  lemma CoefBounds(b: bv64)
    ensures DecodeBid(b).coef < 0x28_0000_0000_0000 && DecodeDpd(b).coef < 1_0000_0000_0000_0000
  {
    hide MantBid, QuantExpBid, QuantExpDpd, SignBit, MantDpd, UnpackMant, Nat, Val, IsBcd, FitsBid, Pow10, Pow16;
    MantFits(b);
    BelowWord(MantBid(b));
    PackedNat(b);
    SixteenDigits();
    ValBound(Nat(UnpackMant(MantDpd(b))), 16);
  }

  /** An exponent of 370 has no field in either layout: what is put together reads
      as a number far below. */
  lemma PastExponent(p: Parts)
    requires AllDigits(p.ints) && AllDigits(p.fracs) && !Spins(D64, p) && ParsedNumber(p).expo == EXPONENTS - BIAS
    ensures DecodeBid(ReadBid(p)).expo < 114 && DecodeDpd(ReadDpd(p)).expo < 114
  {
    var b := Parsed(D64, p);
    ParsedMant(p);
    hide Parsed, Spins, Val, IsBcd, Bits64, AssembleBid, AssembleDpd, QuantExpBid, QuantExpDpd, SignWord, Nat,
      IsBcd16, BcdOf;
    SmallWord(768);
    PastExponentBid(Val(b.mant) % 1000_0000_0000_0000, SignWord(b.neg));
    BcdWordOf(b.mant);
    PastExponentDpd(Bits64(b.mant), SignWord(b.neg));
  }

  lemma BcdWordOf(m: nat)
    requires IsBcd(m) && m < TWO64
    ensures IsBcd16(Bits64(m))
  {
    hide IsBcd, Val, BcdOf, Bits64, IsBcd16, Pow10, Pow16, Nat;
    BitsNat(m);
    SixteenDigits();
    BcdBitsNat(Bits64(m), 16);
    Bcd16Is(Bits64(m));
  }

  lemma FarBelow(m: nat, m1: nat, e1: int)
    requires m >= 1000_0000_0000_0000 && m1 < 0x28_0000_0000_0000 && e1 < 114
    ensures !EqualValue(m, 369, m1, e1)
  {
    assert Pow10(2) == 100;
    hide Pow10;
    PowLess(2, 369 - e1);
    MoreTimes(100, Pow10(369 - e1), m);
  }

  // ----- the round trip -----

  /** The same number; a zero has lost its sign. */
  predicate EqualNumber(x: Finite, y: Finite) {
    y.neg == (x.neg && x.coef != 0) && EqualValue(x.coef, x.expo, y.coef, y.expo)
  }

  /** The number has sixteen digits at the highest exponent: read as fifteen of them
      it would need a higher one. */
  predicate TooHigh(x: Finite) {
    x.expo == EXPONENTS - BIAS - 1 && x.coef >= 1000_0000_0000_0000
  }

  /** All digits past the fifteenth, counted from the point or the first other than
      zero, are zeros. */
  predicate ShortEnough(x: Finite) {
    x.coef % Pow10(Lost(D64, x.coef, x.expo)) == 0
  }

  lemma ReadExpoRange(x: Finite)
    requires IsD64(x)
    ensures -15 <= ReadExpo(D64, x.coef, x.expo) <= EXPONENTS - BIAS
    ensures ReadExpo(D64, x.coef, x.expo) == EXPONENTS - BIAS <==> TooHigh(x)
  {
    SixteenDigits();
    hide Pow10, Whole;
    WholeLength(x.coef, 16);
    WholeLengthIs(x.coef);
  }

  lemma WholeLengthIs(m: nat)
    ensures m >= 1000_0000_0000_0000 <==> |Whole(m)| > 15
  {
    SixteenDigits();
    hide Pow10, Whole;
    if m < Pow10(15) {
      WholeLength(m, 15);
    } else {
      WholeLongIs(m, 15);
    }
  }

  lemma {:induction false} WholeLongIs(m: nat, k: nat)
    requires m >= Pow10(k)
    ensures |Whole(m)| > k
  {
    if k > 0 {
      assert Pow10(k) == 10 * Pow10(k - 1);
      WholeLongIs(m / 10, k - 1);
    } else {
      assert Pow10(0) == 1;
    }
  }

  lemma PastFormat(x: Finite, p: Parts)
    requires AllDigits(p.ints) && AllDigits(p.fracs) && !Spins(D64, p)
    requires TooHigh(x) && ParsedNumber(p).expo == EXPONENTS - BIAS
    ensures !EqualNumber(x, DecodeBid(ReadBid(p))) && !EqualNumber(x, DecodeDpd(ReadDpd(p)))
  {
    hide Parsed, Spins, ReadBid, ReadDpd, DecodeBid, DecodeDpd, EqualValue;
    var b, d := DecodeBid(ReadBid(p)), DecodeDpd(ReadDpd(p));
    PastExponent(p);
    CoefBounds(ReadBid(p));
    CoefBounds(ReadDpd(p));
    FarBelow(x.coef, b.coef, b.expo);
    FarBelow(x.coef, d.coef, d.expo);
  }

  lemma InFormat(x: Finite, p: Parts)
    requires AllDigits(p.ints) && AllDigits(p.fracs) && !Spins(D64, p)
    requires -15 <= ParsedNumber(p).expo < EXPONENTS - BIAS
    requires EqualNumber(x, ParsedNumber(p)) <==> ShortEnough(x)
    requires ShortEnough(x) ==> ParsedNumber(p).coef < 1000_0000_0000_0000
    ensures EqualNumber(x, DecodeBid(ReadBid(p))) <==> ShortEnough(x)
    ensures EqualNumber(x, DecodeDpd(ReadDpd(p))) <==> ShortEnough(x)
  {
    hide Parsed, Spins, ReadBid, ReadDpd, DecodeBid, DecodeDpd, EqualValue, ShortEnough;
    ParsedCoef(p);
    ReadersAgree(p);
    LostIsNotNothing(x);
    ZeroDiffers(x.coef, x.expo, DecodeBid(ReadBid(p)).expo);
  }

  lemma ParsedEqual(x: Finite, p: Parts)
    requires AllDigits(p.ints) && AllDigits(p.fracs) && !Spins(D64, p)
    ensures EqualNumber(x, ParsedNumber(p)) <==> ComesBack(x.neg && x.coef != 0, x.coef, x.expo, Parsed(D64, p))
  {
    hide Parsed, Spins, EqualValue, IsBcd, Val;
    ParsedMant(p);
  }

  lemma ShownIs(x: Finite)
    requires IsD64(x)
    ensures Shown(x) == Text(x.neg && x.coef != 0, x.coef, x.expo)
    ensures Pow10(Counted(D64)) == 1000_0000_0000_0000
  {
    SixteenDigits();
    hide Text, Pow10;
  }

  lemma ShownParsed(x: Finite, rest: string)
    requires IsD64(x) && Delimits(rest)
    ensures var p := Split(Shown(x) + rest);
      && p.next == |Shown(x)|
      && (!Spins(D64, p) && EqualNumber(x, ParsedNumber(p)) <==> ShortEnough(x))
      && (ShortEnough(x) ==> ParsedNumber(p).coef < 1000_0000_0000_0000)
      && (!Spins(D64, p) ==> ParsedNumber(p).expo == ReadExpo(D64, x.coef, x.expo))
  {
    var p := Split(Shown(x) + rest);
    ShownIs(x);
    hide Counted, Shown, Split, Text, Parsed, Spins, Val, Pow10, Lost, ReadExpo, ComesBack, EqualNumber;
    PrintParse(D64, x.neg && x.coef != 0, x.coef, x.expo, rest);
    if !Spins(D64, p) {
      ParsedEqual(x, p);
    }
  }

  /** Printing a decimal and reading the text, whatever follows it, stops right
      behind it and gives back the number, in either layout, if and only if no digit
      but zeros stands past the fifteenth and the number is not too high; the sign of
      a zero is not printed. */
  lemma TextRoundTrip(x: Finite, rest: string)
    requires IsD64(x) && Delimits(rest)
    ensures var p := Split(Shown(x) + rest);
      && p.next == |Shown(x)|
      && (!Spins(D64, p) && EqualNumber(x, DecodeBid(ReadBid(p))) <==> ShortEnough(x) && !TooHigh(x))
      && (!Spins(D64, p) && EqualNumber(x, DecodeDpd(ReadDpd(p))) <==> ShortEnough(x) && !TooHigh(x))
  {
    var p := Split(Shown(x) + rest);
    hide Shown, Split, Parsed, ParsedNumber, Spins, ReadBid, ReadDpd, DecodeBid, DecodeDpd, ReadExpo, EqualNumber,
      TooHigh, ShortEnough;
    ReadExpoRange(x);
    ShownParsed(x, rest);
    if !Spins(D64, p) {
      if TooHigh(x) {
        PastFormat(x, p);
      } else {
        InFormat(x, p);
      }
    }
  }

  lemma LostIsNotNothing(x: Finite)
    ensures !ShortEnough(x) ==> x.coef > 0
  {
    hide Lost, Pow10;
    if x.coef == 0 {
      assert 0 % Pow10(Lost(D64, x.coef, x.expo)) == 0;
    }
  }

  lemma ZeroDiffers(m: nat, e: int, e1: int)
    ensures EqualValue(m, e, 0, e1) ==> m == 0
  {
    if e1 <= e && m > 0 {
      LeastMultiple(Pow10(e - e1), m);
      assert m * Pow10(e - e1) == Pow10(e - e1) * m;
    }
  }

  /** The same number with its zeros written out. */
  predicate SameNumeral(x: Finite, y: Finite) {
    EqualNumber(x, y) && y.expo <= x.expo && (x.expo <= 0 ==> y.coef == x.coef && y.expo == x.expo)
  }

  /** Numbers that survive with all their digits: up to fifteen of them, up to
      fifteen behind the point. */
  predicate Survives(x: Finite) {
    x.coef < 1000_0000_0000_0000 && -15 <= x.expo && x.expo + BIAS < EXPONENTS
  }

  lemma ShortRoundTrip(x: Finite, rest: string)
    requires Survives(x) && Delimits(rest)
    ensures var p := Split(Shown(x) + rest);
      && p.next == |Shown(x)| && !Spins(D64, p)
      && SameNumeral(x, DecodeBid(ReadBid(p))) && SameNumeral(x, DecodeDpd(ReadDpd(p)))
  {
    hide Split, Text, Parsed, Spins, Val, ReadBid, ReadDpd, EncodeBid, EncodeDpd, DecodeBid, DecodeDpd, IsBcd, Pow10;
    SixteenDigits();
    ReadableComesBack(D64, x.neg && x.coef != 0, x.coef, x.expo, rest);
    assert Text(x.neg && x.coef != 0, x.coef, x.expo) == Shown(x);
    PrintParse(D64, x.neg && x.coef != 0, x.coef, x.expo, rest);
    ReadersAgree(Split(Shown(x) + rest));
  }
}
