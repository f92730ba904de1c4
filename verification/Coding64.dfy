/** 64-bit decimals as numbers: what the bit layouts encode, reading, printing
    and quantising. */
module Coding64 {
  import opened Arith
  import opened Words
  import opened Bcd
  import opened Nibbles
  import opened Decimal
  import opened Declet
  import opened Decimal64
  import opened Quantise

  /** Digits that parsing and quantising work with; a word has room for one more. */
  const DIGITS: nat := 15

  predicate IsD64(x: Finite) {
    x.coef < 1_0000_0000_0000_0000 && 0 <= x.expo + BIAS < EXPONENTS
  }

  function SignWord(neg: bool): bv64 {
    if neg then 1 else 0
  }

  // ----- binary -----

  /** Numbers that the binary layout has a word for, some of them with a
      coefficient past sixteen digits. */
  predicate InBid(x: Finite) {
    x.coef < 0x28_0000_0000_0000 && 0 <= x.expo + BIAS < EXPONENTS
  }

  function EncodeBid(x: Finite): bv64
    requires InBid(x)
  {
    AssembleBid(Bits64(x.coef), Bits64(x.expo + BIAS), SignWord(x.neg))
  }

  function DecodeBid(b: bv64): Finite {
    Finite(SignBit(b) < 0, Nat(MantBid(b)), QuantExpBid(b))
  }

  lemma BitsNat(n: u64)
    ensures Nat(Bits64(n)) == n
  {
    hide Bits64;
    Bits64Value(n);
  }

  lemma BelowWord(w: bv64)
    ensures FitsBid(w) <==> Nat(w) < 0x28_0000_0000_0000
    ensures IsExpo(w) <==> Nat(w) < 768
    ensures w == 0 <==> Nat(w) == 0
  {
  }

  lemma FieldsFit(x: Finite)
    requires InBid(x)
    ensures FitsBid(Bits64(x.coef)) && IsExpo(Bits64(x.expo + BIAS))
    ensures Nat(Bits64(x.coef)) == x.coef && Nat(Bits64(x.expo + BIAS)) == x.expo + BIAS
  {
    hide Bits64, IsExpo, FitsBid, Nat;
    BitsNat(x.coef);
    BitsNat(x.expo + BIAS);
    BelowWord(Bits64(x.coef));
    BelowWord(Bits64(x.expo + BIAS));
  }

  lemma SignOdd(neg: bool)
    ensures Odd(SignWord(neg)) <==> neg
  {
  }

  lemma BidExponent(m: bv64, ex: bv64, s: bv64)
    requires FitsBid(m) && IsExpo(ex)
    ensures QuantExpBid(AssembleBid(m, ex, s)) == if Nat(m) == 0 && Nat(ex) == 0 && !Odd(s) then 0 else Nat(ex) - BIAS
  {
    hide AssembleBid, ExpoBid, FitsBid, Odd, IsExpo, Nat;
    BidExpo(m, ex, s);
    BidZero(m, ex, s);
    BelowWord(m);
    BelowWord(ex);
  }

  /** A binary 64-bit decimal decodes to the number it was built from, except
      that the plain zero word reads as exponent 0. */
  lemma BidRoundTrip(x: Finite)
    requires InBid(x)
    ensures DecodeBid(EncodeBid(x)) == if x == Finite(false, 0, -BIAS) then Finite(false, 0, 0) else x
  {
    hide Bits64, AssembleBid, MantBid, QuantExpBid, SignBit, FitsBid, IsExpo, Odd, SignWord, Nat;
    var m, ex, s := Bits64(x.coef), Bits64(x.expo + BIAS), SignWord(x.neg);
    FieldsFit(x);
    BidMant(m, ex, s);
    BidSign(m, ex, s);
    BidExponent(m, ex, s);
    SignOdd(x.neg);
  }

  // ----- densely packed -----

  lemma SixteenDigits()
    ensures Pow10(16) == 1_0000_0000_0000_0000 && Pow16(16) == 0x1_0000_0000_0000_0000
    ensures Pow10(15) == 1000_0000_0000_0000 && Pow16(15) == 0x1000_0000_0000_0000
  {
    assert Pow10(4) == 1_0000 && Pow16(4) == 0x1_0000;
    assert Pow10(8) == 1_0000_0000 && Pow16(8) == 0x1_0000_0000;
    assert Pow10(12) == 1_0000_0000_0000 && Pow16(12) == 0x1_0000_0000_0000;
  }

  lemma BcdFits(m: nat)
    requires m < 1_0000_0000_0000_0000
    ensures BcdOf(m) < TWO64
    ensures m < 1000_0000_0000_0000 <==> BcdOf(m) < 0x1000_0000_0000_0000
  {
    hide Val, IsBcd, BcdOf, Pow10, Pow16;
    SixteenDigits();
    ValOfBcdOf(m);
    ValBound(BcdOf(m), 16);
    ValBound(BcdOf(m), 15);
  }

  predicate Small(w: bv64) {
    w & 0xf <= 9
  }

  lemma NibbleStep(w: bv64, k: nat)
    requires k > 0
    ensures BcdBits64(w, k) <==> Small(w) && BcdBits64(Next64(w), k - 1)
  {
  }

  lemma NibbleZero(w: bv64)
    ensures BcdBits64(w, 0) <==> w == 0
  {
  }

  function Next3(w: bv64): bv64 {
    w >> 12
  }

  function Low3(w: bv64): bv32 {
    (w & 0xfff) as bv32
  }

  lemma Low3Is(w: bv64)
    ensures IsBcd3(Low3(w)) <==> Small(w) && Small(Next64(w)) && Small(Next64(Next64(w)))
    ensures Next64(Next64(Next64(w))) == Next3(w)
  {
  }

  lemma ThreeStep(w: bv64, k: nat)
    ensures BcdBits64(w, k + 3) <==> IsBcd3(Low3(w)) && BcdBits64(Next3(w), k)
  {
    hide BcdBits64, Small, Next64, IsBcd3, Low3, Next3;
    Low3Is(w);
    NibbleStep(w, k + 3);
    NibbleStep(Next64(w), k + 2);
    NibbleStep(Next64(Next64(w)), k + 1);
  }

  lemma ThreeAt(w: bv64)
    ensures Low3(w) == Three(w, 0) && Low3(w >> 12) == Three(w, 1) && Low3(w >> 24) == Three(w, 2)
    ensures Low3(w >> 36) == Three(w, 3) && Low3(w >> 48) == Three(w, 4) && w >> 60 == Top(w)
  {
  }

  lemma Next3Is(w: bv64)
    ensures Next3(w) == w >> 12 && Next3(w >> 12) == w >> 24 && Next3(w >> 24) == w >> 36
    ensures Next3(w >> 36) == w >> 48 && Next3(w >> 48) == w >> 60
  {
  }

  lemma ThreesAre(w: bv64)
    ensures Low3(w) == Three(w, 0) && Low3(Next3(w)) == Three(w, 1) && Low3(Next3(Next3(w))) == Three(w, 2)
    ensures Low3(Next3(Next3(Next3(w)))) == Three(w, 3) && Low3(Next3(Next3(Next3(Next3(w))))) == Three(w, 4)
    ensures Next3(Next3(Next3(Next3(Next3(w))))) == Top(w)
  {
    hide Low3, Next3, Three, Top;
    ThreeAt(w);
    Next3Is(w);
  }

  lemma TopStep(w: bv64)
    ensures Top(w) <= 9 <==> Small(Top(w)) && Next64(Top(w)) == 0
  {
  }

  lemma Bcd16Is(w: bv64)
    ensures IsBcd16(w) <==> BcdBits64(w, 16)
  {
    hide BcdBits64, Small, Next64, Next3, Low3, Three, Top, IsBcd3;
    ThreesAre(w);
    var w1 := Next3(w);
    var w2 := Next3(w1);
    var w3 := Next3(w2);
    var w4 := Next3(w3);
    ThreeStep(w, 13);
    ThreeStep(w1, 10);
    ThreeStep(w2, 7);
    ThreeStep(w3, 4);
    ThreeStep(w4, 1);
    NibbleStep(Top(w), 1);
    NibbleZero(Next64(Top(w)));
    TopStep(w);
  }

  function EncodeDpd(x: Finite): bv64
    requires IsD64(x)
  {
    BcdFits(x.coef);
    AssembleDpd(Bits64(BcdOf(x.coef)), Bits64(x.expo + BIAS), SignWord(x.neg))
  }

  function DecodeDpd(b: bv64): Finite {
    Finite(SignBit(b) < 0, Val(Nat(UnpackMant(MantDpd(b)))), QuantExpDpd(b))
  }

  lemma BcdBitsNat(w: bv64, k: nat)
    ensures BcdBits64(w, k) <==> IsBcd(Nat(w)) && Nat(w) < Pow16(k)
  {
    BcdBits64Is(w, k);
  }

  lemma BcdWord(m: nat)
    requires m < 1_0000_0000_0000_0000
    ensures BcdOf(m) < TWO64 && IsBcd16(Bits64(BcdOf(m))) && Val(Nat(Bits64(BcdOf(m)))) == m
  {
    hide Bits64, IsBcd16, Val, IsBcd, BcdOf, Pow16, Nat;
    BcdFits(m);
    SixteenDigits();
    ValOfBcdOf(m);
    BitsNat(BcdOf(m));
    BcdBitsNat(Bits64(BcdOf(m)), 16);
    Bcd16Is(Bits64(BcdOf(m)));
  }

  lemma TopValue(w: bv64)
    ensures Nat(Top(w)) == Nat(w) / 0x1000_0000_0000_0000
  {
    hide Top;
    var hi, lo := (w >> 60) as bv4, (w & 0xfff_ffff_ffff_ffff) as bv60;
    SixteenthWhole(w);
    SixteenthValue(hi, lo);
    SixteenthTop(hi, lo);
    hide Sixteenth;
    TopDivides(Nat(w), hi as nat, lo as nat);
  }

  function Sixteenth(hi: bv4, lo: bv60): bv64 {
    (hi as bv64 << 60) | lo as bv64
  }

  lemma SixteenthValue(hi: bv4, lo: bv60)
    ensures Nat(Sixteenth(hi, lo)) == hi as nat * 0x1000_0000_0000_0000 + lo as nat && lo as nat < 0x1000_0000_0000_0000
  {
    calc {
      Sixteenth(hi, lo) as nat;
      ((hi as bv64 << 60) | lo as bv64) as nat;
    }
  }

  lemma SixteenthWhole(w: bv64)
    ensures Sixteenth((w >> 60) as bv4, (w & 0xfff_ffff_ffff_ffff) as bv60) == w
  {
  }

  lemma SixteenthTop(hi: bv4, lo: bv60)
    ensures Nat(Top(Sixteenth(hi, lo))) == hi as nat
  {
    assert Top(Sixteenth(hi, lo)) == hi as bv64;
  }

  lemma TopDivides(n: nat, hi: nat, lo: nat)
    requires n == hi * 0x1000_0000_0000_0000 + lo && lo < 0x1000_0000_0000_0000
    ensures n / 0x1000_0000_0000_0000 == hi
  {
  }

  lemma TopDigit(m: nat)
    requires m < 1_0000_0000_0000_0000
    ensures BcdOf(m) < TWO64 && Nat(Top(Bits64(BcdOf(m)))) == m / 1000_0000_0000_0000 <= 9
  {
    hide Bits64, Val, IsBcd, BcdOf, Top, Nat, Pow10, Pow16;
    BcdFits(m);
    ValOfBcdOf(m);
    BitsNat(BcdOf(m));
    TopValue(Bits64(BcdOf(m)));
    LeadingDigit(BcdOf(m), m);
  }

  lemma LeadingDigit(b: nat, m: nat)
    requires IsBcd(b) && Val(b) == m && b < TWO64
    ensures b / 0x1000_0000_0000_0000 == m / 1000_0000_0000_0000 <= 9
  {
    var h, l := b / 0x1000_0000_0000_0000, b % 0x1000_0000_0000_0000;
    OneDigit(h);
    hide Val, IsBcd, Pow10, Pow16;
    SixteenDigits();
    ValSplit(h, l, 15);
    ValBound(l, 15);
    Quotient(h, Val(l), m);
  }

  lemma OneDigit(h: nat)
    requires h < 16
    ensures Val(h) == h && (IsBcd(h) <==> h <= 9)
  {
    assert h > 0 ==> Val(h) == Val(0) * 10 + h;
  }

  lemma Quotient(h: nat, r: nat, m: nat)
    requires m == h * 1000_0000_0000_0000 + r && r < 1000_0000_0000_0000
    ensures m / 1000_0000_0000_0000 == h
  {
  }

  /** The exponents that the packed layout can give back for a coefficient: with a
      leading digit of 8 only biased ones below 512, with a leading 9 only those of
      them in the second or the fourth quarter. */
  predicate ReadsBack(coef: nat, biased: int) {
    var top := coef / 1000_0000_0000_0000;
    top >= 8 ==> biased < 512 && (top == 9 ==> 128 <= biased < 256 || 384 <= biased)
  }

  lemma ReadsBackIs(top: bv64, ex: bv64)
    requires IsExpo(ex)
    ensures ExpoReadable(top, ex) <==>
      (Nat(top) >= 8 ==> Nat(ex) < 512 && (Nat(top) == 9 ==> 128 <= Nat(ex) < 256 || 384 <= Nat(ex)))
  {
    EighthBit(ex);
    Compare(ex);
    CompareTop(top);
  }

  lemma EighthBit(ex: bv64)
    requires IsExpo(ex)
    ensures ex < 512 ==> (ex & 0x80 != 0 <==> (128 <= ex && ex < 256) || 384 <= ex)
  {
  }

  lemma Compare(ex: bv64)
    ensures ex < 512 <==> Nat(ex) < 512
    ensures ex < 256 <==> Nat(ex) < 256
    ensures 128 <= ex <==> 128 <= Nat(ex)
    ensures 384 <= ex <==> 384 <= Nat(ex)
  {
  }

  lemma CompareTop(top: bv64)
    ensures top >= 8 <==> Nat(top) >= 8
    ensures top == 9 <==> Nat(top) == 9
    ensures top == 0 <==> Nat(top) == 0
  {
  }

  predicate DpdBlank(x: Finite) {
    !x.neg && x.coef < 1000_0000_0000_0000 && x.expo == -BIAS
  }

  lemma DpdExponent(m: bv64, ex: bv64, s: bv64)
    requires IsBcd16(m) && IsExpo(ex)
    ensures QuantExpDpd(AssembleDpd(m, ex, s)) == Nat(ex) - BIAS
      <==> !(Nat(Top(m)) == 0 && Nat(ex) == 0 && !Odd(s)) && ExpoReadable(Top(m), ex)
  {
    hide AssembleDpd, ExpoDpd, IsBcd16, Top, ExpoReadable, Odd, IsExpo, Nat;
    DpdExpo(m, ex, s);
    DpdZero(m, ex, s);
    CompareTop(Top(m));
    BelowWord(ex);
    SameWord(ExpoDpd(AssembleDpd(m, ex, s)), ex);
  }

  lemma SameWord(v: bv64, w: bv64)
    ensures v == w <==> Nat(v) == Nat(w)
  {
    if Nat(v) == Nat(w) {
      Same64(v, w);
    }
  }

  lemma DpdExponentIs(w: bv64, ex: bv64, s: bv64, top: nat, e: nat, neg: bool)
    requires IsBcd16(w) && Nat(Top(w)) == top && Nat(ex) == e < 768 && IsExpo(ex) && (Odd(s) <==> neg)
    ensures QuantExpDpd(AssembleDpd(w, ex, s)) == e - BIAS
      <==> !(top == 0 && e == 0 && !neg) && (top >= 8 ==> e < 512 && (top == 9 ==> 128 <= e < 256 || 384 <= e))
  {
    hide AssembleDpd, QuantExpDpd, IsBcd16, Odd, Top, ExpoReadable, IsExpo, Nat;
    DpdExponent(w, ex, s);
    ReadsBackIs(Top(w), ex);
  }

  lemma DpdReadsExpo(x: Finite)
    requires IsD64(x)
    ensures QuantExpDpd(EncodeDpd(x)) == x.expo <==> !DpdBlank(x) && ReadsBack(x.coef, x.expo + BIAS)
  {
    hide Bits64, AssembleDpd, QuantExpDpd, IsBcd16, Odd, SignWord, Top, BcdOf, Val, Nat, IsExpo;
    BcdWord(x.coef);
    FieldsFit(x);
    SignOdd(x.neg);
    TopDigit(x.coef);
    DpdExponentIs(Bits64(BcdOf(x.coef)), Bits64(x.expo + BIAS), SignWord(x.neg),
      x.coef / 1000_0000_0000_0000, x.expo + BIAS, x.neg);
  }

  /** The top of a packed word is blank exactly for positive numbers of up to
      fifteen digits at the lowest exponent. */
  lemma DpdTop(x: Finite)
    requires IsD64(x)
    ensures HasBlankTop(EncodeDpd(x)) <==> DpdBlank(x)
    ensures HasBlankTop(EncodeDpd(x)) ==> QuantExpDpd(EncodeDpd(x)) == 0
  {
    hide Bits64, AssembleDpd, ExpoDpd, IsBcd16, Odd, SignWord, Top, BcdOf, Val, Nat, IsExpo;
    BcdWord(x.coef);
    var w, ex := Bits64(BcdOf(x.coef)), Bits64(x.expo + BIAS);
    FieldsFit(x);
    SignOdd(x.neg);
    TopDigit(x.coef);
    DpdZero(w, ex, SignWord(x.neg));
    CompareTop(Top(w));
    BelowWord(ex);
  }

  predicate HasBlankTop(b: bv64) {
    b >> 50 == 0
  }

  lemma DpdReadsSign(x: Finite)
    requires IsD64(x)
    ensures SignBit(EncodeDpd(x)) == if x.neg then -1 else 0
  {
    hide Bits64, AssembleDpd, SignBit, IsBcd16, Odd, SignWord, BcdOf, Val, IsExpo, Nat;
    BcdWord(x.coef);
    FieldsFit(x);
    DpdSign(Bits64(BcdOf(x.coef)), Bits64(x.expo + BIAS), SignWord(x.neg));
    SignOdd(x.neg);
  }

  lemma DpdReadsCoef(x: Finite)
    requires IsD64(x)
    ensures BcdOf(x.coef) < TWO64 && UnpackMant(MantDpd(EncodeDpd(x))) == Bits64(BcdOf(x.coef))
    ensures Val(Nat(Bits64(BcdOf(x.coef)))) == x.coef
  {
    hide Bits64, AssembleDpd, MantDpd, UnpackMant, IsBcd16, SignWord, BcdOf, Val, IsExpo, Nat;
    BcdWord(x.coef);
    FieldsFit(x);
    DpdMant(Bits64(BcdOf(x.coef)), Bits64(x.expo + BIAS), SignWord(x.neg));
  }

  /** A packed 64-bit decimal always gives back sign and coefficient; it gives back
      the exponent exactly when the leading digit lets it and the top of the word is
      not blank. */
  lemma DpdRoundTrip(x: Finite)
    requires IsD64(x)
    ensures DecodeDpd(EncodeDpd(x)) == x <==> !DpdBlank(x) && ReadsBack(x.coef, x.expo + BIAS)
    ensures DecodeDpd(EncodeDpd(x)).coef == x.coef && DecodeDpd(EncodeDpd(x)).neg == x.neg
    ensures DpdBlank(x) ==> DecodeDpd(EncodeDpd(x)).expo == 0
  {
    hide EncodeDpd, DpdBlank, ReadsBack, QuantExpDpd, MantDpd, UnpackMant, SignBit, Bits64, BcdOf, Val, Nat;
    DpdReadsExpo(x);
    DpdReadsSign(x);
    DpdReadsCoef(x);
    DpdTop(x);
  }

  /** The two layouts of one number decode to one number exactly if the packed one
      gives it back, or for the positive zero at the lowest exponent, which neither
      does. */
  lemma SameNumber(x: Finite)
    requires IsD64(x)
    ensures DecodeBid(EncodeBid(x)) == DecodeDpd(EncodeDpd(x)) <==>
      (!DpdBlank(x) && ReadsBack(x.coef, x.expo + BIAS)) || (DpdBlank(x) && x.coef == 0)
    ensures DecodeBid(EncodeBid(x)) == x == DecodeDpd(EncodeDpd(x)) <==>
      !DpdBlank(x) && ReadsBack(x.coef, x.expo + BIAS)
  {
    hide EncodeBid, EncodeDpd, DecodeBid, DecodeDpd, Nat;
    BidRoundTrip(x);
    DpdRoundTrip(x);
  }

  /** What 1234567890123456 is as a word. */
  lemma Sample()
    ensures EncodeBid(Finite(false, 1234567890123456, 0)) == 0x31c4_62d5_3c8a_bac0
    ensures EncodeDpd(Finite(false, 1234567890123456, 0)) == 0x2639_34b9_c1e2_8e56
  {
    SampleFields();
    SampleWord(1234567890123456, 0x4_62d5_3c8a_bac0);
    SampleWord(BcdOf(1234567890123456), 0x1234_5678_9012_3456);
    SampleWord(398, 398);
    hide Bits64, BcdOf;
    SampleBid(0x4_62d5_3c8a_bac0, 398);
    SampleDpd(0x1234_5678_9012_3456, 398);
    hide AssembleBid, AssembleDpd;
  }

  lemma SampleFields()
    ensures BcdOf(1234567890123456) == 0x1234_5678_9012_3456
  {
    assert BcdOf(123) == 0x123;
    assert BcdOf(12345) == 0x1_2345;
    assert BcdOf(12345678) == 0x1234_5678;
    assert BcdOf(12345678901) == 0x123_4567_8901;
    assert BcdOf(1234567890123) == 0x1_2345_6789_0123;
    assert BcdOf(12345678901234) == 0x12_3456_7890_1234;
  }

  lemma SampleWord(m: u64, v: bv64)
    requires v as nat == m
    ensures Bits64(m) == v
  {
    hide Bits64;
    Bits64Unique(m, v);
  }

  lemma SampleBid(m: bv64, ex: bv64)
    requires m == 0x4_62d5_3c8a_bac0 && ex == 398
    ensures AssembleBid(m, ex, 0) == 0x31c4_62d5_3c8a_bac0
  {
  }

  lemma SampleDpd(m: bv64, ex: bv64)
    requires m == 0x1234_5678_9012_3456 && ex == 398
    ensures AssembleDpd(m, ex, 0) == 0x2639_34b9_c1e2_8e56
  {
  }

  // ----- a BCD coefficient into the binary layout -----

  /** The nibbles of a word in the opposite order. */
  function Mirror(b: bv64): bv64 {
    var w := ((b & 0xffff_ffff_0000_0000) >> 32) ^ ((b & 0x0000_0000_ffff_ffff) << 32);
    var h := ((w & 0xffff_0000_ffff_0000) >> 16) ^ ((w & 0x0000_ffff_0000_ffff) << 16);
    var q := ((h & 0xff00_ff00_ff00_ff00) >> 8) ^ ((h & 0x00ff_00ff_00ff_00ff) << 8);
    ((q & 0xf0f0_f0f0_f0f0_f0f0) >> 4) ^ ((q & 0x0f0f_0f0f_0f0f_0f0f) << 4)
  }

  /** Nibble k, counted from the low end. */
  function NibbleAt(w: bv64, k: bv6): bv64
    requires k < 16
  {
    (w >> (4 * k)) & 0xf
  }

  function Past(w: bv64, k: bv6): bv64
    requires k < 16
  {
    w >> (4 * k)
  }

  function Low15(w: bv64): bv64 {
    w & 0x0fff_ffff_ffff_ffff
  }

  /** Mirrored and shifted, the fifteen low nibbles come in the opposite order. */
  lemma MirrorReverses(w: bv64, k: bv6)
    requires k < 15
    ensures NibbleAt(Next64(Mirror(w)), k) == NibbleAt(Low15(w), 14 - k)
  {
  }

  lemma NibbleAtNext(w: bv64, k: bv6)
    requires 0 < k < 16
    ensures NibbleAt(w, k) == NibbleAt(Next64(w), k - 1)
  {
  }

  lemma NextNat(w: bv64)
    ensures Nat(Next64(w)) == Nat(w) / 16 && Nat(NibbleAt(w, 0)) == Nat(w) % 16
  {
    NibblesOf64(w, w as nat);
    assert NibbleAt(w, 0) == w & 0xf;
  }

  function Index(k: bv6): nat {
    k as nat
  }

  lemma IndexIs(k: bv6)
    requires k < 15
    ensures Index(14 - k) == 14 - Index(k) && Index(k + 1) == Index(k) + 1
  {
  }

  lemma IndexBelow(k: bv6)
    ensures k < 15 <==> Index(k) < 15
    ensures Index(k) == 0 <==> k == 0
    ensures k > 0 ==> Index(k - 1) == Index(k) - 1
  {
  }

  lemma {:induction false} NibbleAtIs(w: bv64, k: bv6)
    requires k < 15
    ensures Nat(NibbleAt(w, k)) == DropNibbles(Nat(w), Index(k)) % 16
    decreases Index(k)
  {
    hide Nat, NibbleAt, Next64, Index;
    NextNat(w);
    IndexBelow(k);
    if k > 0 {
      NibbleAtNext(w, k);
      NibbleAtIs(Next64(w), k - 1);
      DropNibblesAhead(Nat(w), Index(k));
    }
  }

  lemma MirrorDigit(word: bv64, k: bv6)
    requires k < 15
    ensures Nat(NibbleAt(Next64(Mirror(word)), k)) == DropNibbles(Nat(Low15(word)), 14 - Index(k)) % 16
  {
    hide Mirror, NibbleAt, Low15, DropNibbles, Nat, Index, Next64;
    MirrorReverses(word, k);
    Within(k);
    IndexIs(k);
    NibbleAtIs(Low15(word), 14 - k);
  }

  lemma Within(k: bv6)
    requires k < 15
    ensures 14 - k < 15
  {
  }

  lemma PastNext(v: bv64, k: bv6)
    requires k < 15
    ensures Next64(Past(v, k)) == Past(v, k + 1) && NibbleAt(Past(v, k), 0) == NibbleAt(v, k)
  {
  }

  lemma PastNone(v: bv64)
    ensures Past(v, 0) == v && Index(0) == 0
  {
  }

  lemma NextDigit(n: nat, i: nat)
    requires i > 0
    ensures Val(DropNibbles(n, i - 1)) == Val(DropNibbles(n, i)) * 10 + DropNibbles(n, i - 1) % 16
  {
    ValParts(DropNibbles(n, i - 1));
  }

  lemma Low15Nat(w: bv64)
    ensures Nat(Low15(w)) == Nat(w) % 0x1000_0000_0000_0000
  {
    hide Low15;
    var hi, lo := (w >> 60) as bv4, (w & 0xfff_ffff_ffff_ffff) as bv60;
    SixteenthWhole(w);
    SixteenthValue(hi, lo);
    SixteenthLow(hi, lo);
    hide Sixteenth;
    LowRemains(Nat(w), hi as nat, lo as nat);
  }

  lemma SixteenthLow(hi: bv4, lo: bv60)
    ensures Nat(Low15(Sixteenth(hi, lo))) == lo as nat
  {
    assert Low15(Sixteenth(hi, lo)) == lo as bv64;
  }

  lemma LowRemains(n: nat, hi: nat, lo: nat)
    requires n == hi * 0x1000_0000_0000_0000 + lo && lo < 0x1000_0000_0000_0000
    ensures n % 0x1000_0000_0000_0000 == lo
  {
  }

  lemma NothingLeft(n: nat)
    requires n < 0x1000_0000_0000_0000
    ensures DropNibbles(n, 15) == 0 && Val(0) == 0 && DropNibbles(n, 0) == n
  {
    hide DropNibbles, Pow16, Pow10;
    SixteenDigits();
    DropAll(n, 15);
    assert DropNibbles(n, 0) == n by { DropNone(n); }
  }

  lemma DropNone(n: nat)
    ensures DropNibbles(n, 0) == n
  {
  }

  lemma LowRange(n: nat)
    ensures n % 0x1000_0000_0000_0000 < 0x1000_0000_0000_0000
  {
  }

  /** The loop that reads a coefficient off the fifteen low nibbles of a word,
      highest first. */
  method ReadNibbles(word: bv64) returns (m: nat)
    ensures m == Val(Nat(Low15(word)))
  {
    hide Mirror, Val, DropNibbles, Low15, NibbleAt, Next64, Past, Nat, Index;
    ghost var v, low, k := Next64(Mirror(word)), Nat(Low15(word)), 0 as bv6;
    var w := Next64(Mirror(word));
    var i: nat := 15;
    m := 0;
    Low15Nat(word);
    LowRange(Nat(word));
    NothingLeft(low);
    PastNone(v);
    while i > 0
      invariant i <= 15 && Index(k) == 15 - i && k < 16
      invariant w == Past(v, k)
      invariant m == Val(DropNibbles(low, i))
    {
      IndexBelow(k);
      PastNext(v, k);
      MirrorDigit(word, k);
      NextDigit(low, i);
      IndexIs(k);
      m := m * 10;
      m := m + Nat(NibbleAt(w, 0));
      w := Next64(w);
      i := i - 1;
      k := k + 1;
    }
  }

  lemma Low15Val(n: nat)
    requires IsBcd(n)
    ensures Val(n % 0x1000_0000_0000_0000) == Val(n) % 1000_0000_0000_0000
  {
    var h, l := n / 0x1000_0000_0000_0000, n % 0x1000_0000_0000_0000;
    hide Val, IsBcd, Pow10, Pow16;
    SixteenDigits();
    ValSplit(h, l, 15);
    ValBound(l, 15);
    Remains(Val(h), Val(l));
  }

  lemma Remains(q: nat, r: nat)
    requires r < 1000_0000_0000_0000
    ensures (q * 1000_0000_0000_0000 + r) % 1000_0000_0000_0000 == r
  {
  }

  /** A parsed coefficient in the binary layout: a sixteenth digit, which rounding
      up fifteen nines leaves, is lost. */
  method BcdToBid(mant: u64, expo: int, neg: bool) returns (r: bv64)
    requires IsBcd(mant)
    ensures r == AssembleBid(Bits64(Val(mant) % 1000_0000_0000_0000), Bits64((expo + BIAS) % TWO64), SignWord(neg))
  {
    hide AssembleBid, Low15, Val, IsBcd, Bits64, Nat;
    var m := ReadNibbles(Bits64(mant));
    BitsNat(mant);
    Low15Nat(Bits64(mant));
    Low15Val(mant);
    r := AssembleBid(Bits64(m), Bits64((expo + BIAS) % TWO64), SignWord(neg));
  }

  // ----- quantising on the two layouts -----

  function QuantisedBid(x: bv64, r: bv64): Scaled {
    Quantised(Nat(MantBid(x)), QuantExpBid(x), QuantExpBid(r), DIGITS)
  }

  /** The packed loops work on the fifteen digits behind the leading one. */
  function QuantisedDpd(x: bv64, r: bv64): Scaled {
    Quantised(Val(Nat(UnpackMisplaced(MantDpd(x)))), QuantExpDpd(x), QuantExpDpd(r), DIGITS)
  }

  lemma ExpoRange(b: bv64)
    ensures 0 <= QuantExpBid(b) + BIAS < 1024 && 0 <= QuantExpDpd(b) + BIAS < 1024
  {
    FieldRange(b);
    hide ExpoBid, ExpoDpd, Nat;
    TenBits(ExpoBid(b));
    TenBits(ExpoDpd(b));
  }

  predicate IsTenBits(w: bv64) {
    w < 1024
  }

  lemma FieldRange(b: bv64)
    ensures IsTenBits(ExpoBid(b)) && IsTenBits(ExpoDpd(b))
  {
  }

  lemma TenBits(w: bv64)
    ensures IsTenBits(w) <==> Nat(w) < 1024
  {
  }

  lemma MantFits(b: bv64)
    ensures FitsBid(MantBid(b))
  {
  }

  lemma UnpackedDigits(c: bv64, lead: bv64)
    requires lead <= 9
    ensures IsBcd16(UnpackBehind(lead, c)) && Top(UnpackBehind(lead, c)) == lead
    ensures UnpackBehind(lead, c) == 0 <==>
      (lead == 0 && Unpack(DecletAt(c, 0)) == 0 && Unpack(DecletAt(c, 1)) == 0 && Unpack(DecletAt(c, 2)) == 0
       && Unpack(DecletAt(c, 3)) == 0 && Unpack(DecletAt(c, 4)) == 0)
  {
    DecletsFit(c);
    hide Unpack, DecletAt, IsBcd3;
    UnpackIsBcd(DecletAt(c, 0));
    UnpackIsBcd(DecletAt(c, 1));
    UnpackIsBcd(DecletAt(c, 2));
    UnpackIsBcd(DecletAt(c, 3));
    UnpackIsBcd(DecletAt(c, 4));
    UnpackFits(DecletAt(c, 0));
    UnpackFits(DecletAt(c, 1));
    UnpackFits(DecletAt(c, 2));
    UnpackFits(DecletAt(c, 3));
    UnpackFits(DecletAt(c, 4));
    JoinedDigits(lead, Unpack(DecletAt(c, 4)), Unpack(DecletAt(c, 3)), Unpack(DecletAt(c, 2)),
      Unpack(DecletAt(c, 1)), Unpack(DecletAt(c, 0)));
  }

  lemma DecletsFit(c: bv64)
    ensures DecletAt(c, 0) < 0x400 && DecletAt(c, 1) < 0x400 && DecletAt(c, 2) < 0x400 && DecletAt(c, 3) < 0x400
    ensures DecletAt(c, 4) < 0x400
  {
  }

  lemma UnpackFits(d: bv32)
    requires d < 0x400
    ensures Unpack(d) < 0x1000
  {
  }

  lemma JoinedDigits(l: bv64, u4: bv32, u3: bv32, u2: bv32, u1: bv32, u0: bv32)
    requires l <= 9 && u4 < 0x1000 && u3 < 0x1000 && u2 < 0x1000 && u1 < 0x1000 && u0 < 0x1000
    ensures var w := Append(Append(Append(Append(Append(l, u4), u3), u2), u1), u0);
      && Three(w, 0) == u0 && Three(w, 1) == u1 && Three(w, 2) == u2 && Three(w, 3) == u3 && Three(w, 4) == u4
      && Top(w) == l
      && (w == 0 <==> l == 0 && u4 == 0 && u3 == 0 && u2 == 0 && u1 == 0 && u0 == 0)
  {
  }

  lemma Bcd16Nat(w: bv64)
    requires IsBcd16(w)
    ensures IsBcd(Nat(w)) && Nat(w) < TWO64
    ensures Nat(Top(w)) == Nat(w) / 0x1000_0000_0000_0000
  {
    hide IsBcd16, IsBcd, Pow16, Nat, Top;
    Bcd16Is(w);
    BcdBitsNat(w, 16);
    SixteenDigits();
    TopValue(w);
  }

  lemma MisplacedValue(c: bv64)
    ensures var n := Nat(UnpackMisplaced(c)); IsBcd(n) && n < 0x1000_0000_0000_0000
  {
    hide UnpackMisplaced, UnpackBehind, IsBcd16, IsBcd, Nat, Top;
    LeadLost(c);
    UnpackedDigits(c, 0);
    Bcd16Nat(UnpackBehind(0, c));
    BelowWord(Top(UnpackBehind(0, c)));
  }

  lemma BidResultFits(x: bv64, r: bv64)
    ensures QuantisedBid(x, r).coef < TWO64 && 0 <= QuantisedBid(x, r).expo + BIAS < 1024
  {
    hide MantBid, QuantExpBid, QuantExpDpd, Quantised, FitsBid, Nat, Pow10;
    ExpoRange(r);
    ExpoRange(x);
    MantFits(x);
    BelowWord(MantBid(x));
    SixteenDigits();
    QuantisedBound(Nat(MantBid(x)), QuantExpBid(x), QuantExpBid(r), DIGITS);
    QuantisedExpo(Nat(MantBid(x)), QuantExpBid(x), QuantExpBid(r), DIGITS);
  }

  lemma DpdResultFits(x: bv64, r: bv64)
    ensures QuantisedDpd(x, r).coef < 1000_0000_0000_0000 && 0 <= QuantisedDpd(x, r).expo + BIAS < 1024
  {
    hide MantDpd, UnpackMisplaced, QuantExpBid, QuantExpDpd, Quantised, Val, IsBcd, Nat, Pow10, Pow16;
    var m := Val(Nat(UnpackMisplaced(MantDpd(x))));
    MisplacedValue(MantDpd(x));
    SixteenDigits();
    ValBound(Nat(UnpackMisplaced(MantDpd(x))), 15);
    ExpoRange(r);
    ExpoRange(x);
    QuantisedFits(m, QuantExpDpd(x), QuantExpDpd(r), DIGITS);
    QuantisedExpo(m, QuantExpDpd(x), QuantExpDpd(r), DIGITS);
  }

  /** The binary word that quantising x like r gives. */
  function BidResult(x: bv64, r: bv64): bv64 {
    BidResultFits(x, r);
    var q := QuantisedBid(x, r);
    AssembleBid(Bits64(q.coef), Bits64(q.expo + BIAS), SignWord(SignBit(x) < 0))
  }

  /** The packed word that quantising x like r gives. */
  function DpdResult(x: bv64, r: bv64): bv64 {
    DpdResultFits(x, r);
    var q := QuantisedDpd(x, r);
    BcdFits(q.coef);
    AssembleDpd(Bits64(BcdOf(q.coef)), Bits64(q.expo + BIAS), SignWord(SignBit(x) < 0))
  }

  method QuantizeBid(x: bv64, r: bv64) returns (z: bv64)
    ensures z == BidResult(x, r)
  {
    hide AssembleBid, MantBid, QuantExpBid, Quantised, SignBit, Bits64, Nat;
    BidResultFits(x, r);
    var er, ex := QuantExpBid(r), QuantExpBid(x);
    var m := Nat(MantBid(x));
    m, ex := QuantiseBinary(m, ex, er, DIGITS);
    z := AssembleBid(Bits64(m), Bits64(ex + BIAS), SignWord(SignBit(x) < 0));
  }

  method QuantizeDpd(x: bv64, r: bv64) returns (z: bv64)
    ensures z == DpdResult(x, r)
  {
    hide AssembleDpd, MantDpd, UnpackMisplaced, QuantExpDpd, Quantised, SignBit, Bits64, Val, BcdOf, IsBcd, Nat, Pow16;
    DpdResultFits(x, r);
    MisplacedValue(MantDpd(x));
    SixteenDigits();
    var er, ex := QuantExpDpd(r), QuantExpDpd(x);
    var b := Nat(UnpackMisplaced(MantDpd(x)));
    b, ex := QuantiseBcd(b, ex, er, DIGITS);
    BcdOfVal(b);
    z := AssembleDpd(Bits64(b), Bits64(ex + BIAS), SignWord(SignBit(x) < 0));
  }

  /** x rounded or expanded to the exponent of r. */
  function QuantisedNumber(x: Finite, r: Finite): Finite {
    var q := Quantised(x.coef, x.expo, r.expo, DIGITS);
    Finite(x.neg, q.coef, q.expo)
  }

  function WithoutLead(x: Finite): Finite {
    x.(coef := x.coef % 1000_0000_0000_0000)
  }

  /** Words of finite numbers. */
  predicate FiniteBid(b: bv64) {
    QuantExpBid(b) + BIAS < EXPONENTS
  }

  predicate FiniteDpd(b: bv64) {
    QuantExpDpd(b) + BIAS < EXPONENTS
  }

  lemma DecodedInBid(b: bv64)
    requires FiniteBid(b)
    ensures InBid(DecodeBid(b))
  {
    hide MantBid, QuantExpBid, QuantExpDpd, SignBit, Nat, FitsBid;
    ExpoRange(b);
    MantFits(b);
    BelowWord(MantBid(b));
  }

  lemma LeadSmall(b: bv64)
    ensures Lead(MantDpd(b)) <= 9
  {
  }

  lemma PackedDigits(b: bv64)
    ensures var w := Nat(UnpackMant(MantDpd(b))); IsBcd(w) && w < TWO64
    ensures DecodeDpd(b).coef < 1_0000_0000_0000_0000
  {
    LeadSmall(b);
    hide MantDpd, UnpackBehind, Lead, IsBcd16, IsBcd, Val, Nat, Top, Pow10, Pow16, SignBit, QuantExpDpd;
    UnpackedDigits(MantDpd(b), Lead(MantDpd(b)));
    Bcd16Nat(UnpackMant(MantDpd(b)));
    SixteenDigits();
    ValBound(Nat(UnpackMant(MantDpd(b))), 16);
  }

  lemma DecodedIsD64(b: bv64)
    requires FiniteDpd(b)
    ensures IsD64(DecodeDpd(b))
  {
    hide MantDpd, UnpackMant, QuantExpBid, QuantExpDpd, SignBit, Val, Nat;
    ExpoRange(b);
    PackedDigits(b);
  }

  lemma QuantisedInBid(x: Finite, r: Finite)
    requires InBid(x) && InBid(r)
    ensures InBid(QuantisedNumber(x, r))
    ensures x.coef < 1000_0000_0000_0000 ==> QuantisedNumber(x, r).coef < 1000_0000_0000_0000
  {
    SixteenDigits();
    hide Pow10, Quantised;
    QuantisedBound(x.coef, x.expo, r.expo, DIGITS);
    if x.coef < 1000_0000_0000_0000 {
      QuantisedFits(x.coef, x.expo, r.expo, DIGITS);
    }
    QuantisedExpo(x.coef, x.expo, r.expo, DIGITS);
  }

  lemma BidResultIs(x: bv64, r: bv64)
    requires FiniteBid(x) && FiniteBid(r)
    ensures var q := QuantisedNumber(DecodeBid(x), DecodeBid(r)); InBid(q) && BidResult(x, r) == EncodeBid(q)
  {
    DecodedInBid(x);
    DecodedInBid(r);
    QuantisedInBid(DecodeBid(x), DecodeBid(r));
    hide AssembleBid, MantBid, QuantExpBid, Quantised, SignBit, Bits64, InBid, FiniteBid, SignWord, Nat;
  }

  /** What the misplaced unpacking finds. */
  lemma MisplacedCoef(b: bv64)
    ensures Val(Nat(UnpackMisplaced(MantDpd(b)))) == DecodeDpd(b).coef % 1000_0000_0000_0000
  {
    hide MantDpd, UnpackMisplaced, UnpackMant, UnpackBehind, Bits64, Val, IsBcd, BcdOf, Nat, Low15, SignBit,
      QuantExpDpd;
    var c := MantDpd(b);
    LeadLost(c);
    BehindLow(c);
    Low15Nat(UnpackMant(c));
    PackedDigits(b);
    Low15Val(Nat(UnpackMant(c)));
  }

  lemma BehindLow(c: bv64)
    ensures UnpackBehind(0, c) == Low15(UnpackMant(c))
  {
    var u4, u3, u2 := Unpack(DecletAt(c, 4)), Unpack(DecletAt(c, 3)), Unpack(DecletAt(c, 2));
    var u1, u0 := Unpack(DecletAt(c, 1)), Unpack(DecletAt(c, 0));
    DecletsFit(c);
    UnpackFits(DecletAt(c, 0));
    UnpackFits(DecletAt(c, 1));
    UnpackFits(DecletAt(c, 2));
    UnpackFits(DecletAt(c, 3));
    UnpackFits(DecletAt(c, 4));
    hide Unpack, DecletAt, Append, Lead, Low15;
    LowOfJoined(Lead(c), u4, u3, u2, u1, u0);
  }

  lemma LowOfJoined(l: bv64, u4: bv32, u3: bv32, u2: bv32, u1: bv32, u0: bv32)
    requires u4 < 0x1000 && u3 < 0x1000 && u2 < 0x1000 && u1 < 0x1000 && u0 < 0x1000
    ensures Append(Append(Append(Append(Append(0, u4), u3), u2), u1), u0)
      == Low15(Append(Append(Append(Append(Append(l, u4), u3), u2), u1), u0))
  {
  }

  lemma QuantisedDpdIs(y: bv64, s: bv64)
    ensures var q := QuantisedNumber(WithoutLead(DecodeDpd(y)), DecodeDpd(s));
      QuantisedDpd(y, s) == Scaled(q.coef, q.expo) && q.neg == (SignBit(y) < 0)
  {
    MisplacedCoef(y);
    hide MantDpd, UnpackMisplaced, UnpackMant, QuantExpDpd, Quantised, SignBit, Val, Nat;
  }

  lemma DpdResultIs(y: bv64, s: bv64)
    requires FiniteDpd(y) && FiniteDpd(s)
    ensures var q := QuantisedNumber(WithoutLead(DecodeDpd(y)), DecodeDpd(s));
      IsD64(q) && q.coef < 1000_0000_0000_0000 && DpdResult(y, s) == EncodeDpd(q)
  {
    hide AssembleDpd, DecodeDpd, QuantisedNumber, QuantisedDpd, SignBit, Bits64, BcdOf, FiniteDpd, SignWord;
    DecodedIsD64(y);
    DecodedIsD64(s);
    LeadGone(DecodeDpd(y));
    QuantisedDpdIs(y, s);
    QuantisedInBid(WithoutLead(DecodeDpd(y)), DecodeDpd(s));
  }

  lemma LeadGone(d: Finite)
    requires IsD64(d)
    ensures IsD64(WithoutLead(d)) && WithoutLead(d).coef < 1000_0000_0000_0000
  {
  }

  /** The loops on a binary coefficient: the word they give decodes to the quantised
      number, unless it is all zero. */
  lemma BidQuantises(x: bv64, r: bv64)
    requires FiniteBid(x) && FiniteBid(r)
    ensures var q := QuantisedNumber(DecodeBid(x), DecodeBid(r));
      && (DecodeBid(BidResult(x, r)) == q <==> q != Finite(false, 0, -BIAS))
      && DecodeBid(BidResult(x, r)).coef == q.coef && DecodeBid(BidResult(x, r)).neg == q.neg
  {
    hide BidResult, EncodeBid, DecodeBid, QuantisedNumber;
    BidResultIs(x, r);
    BidRoundTrip(QuantisedNumber(DecodeBid(x), DecodeBid(r)));
  }

  /** The loops on nibbles: theirs decodes to the quantised form of the number
      without its sixteenth digit, unless its top is blank. */
  lemma DpdQuantises(y: bv64, s: bv64)
    requires FiniteDpd(y) && FiniteDpd(s)
    ensures var q := QuantisedNumber(WithoutLead(DecodeDpd(y)), DecodeDpd(s));
      && (DecodeDpd(DpdResult(y, s)) == q <==> !DpdBlank(q))
      && DecodeDpd(DpdResult(y, s)).coef == q.coef && DecodeDpd(DpdResult(y, s)).neg == q.neg
  {
    hide DpdResult, EncodeDpd, DecodeDpd, QuantisedNumber;
    DpdResultIs(y, s);
    DpdRoundTrip(QuantisedNumber(WithoutLead(DecodeDpd(y)), DecodeDpd(s)));
  }

  /** Quantising by k digits does not tell a coefficient from the one without its
      sixteenth digit: there is none, or all sixteen are dropped and not rounded up. */
  predicate LeadIsLost(m: nat, k: int) {
    m < 1000_0000_0000_0000 || k >= 17 || (k == 16 && m < 4444_4444_4444_4445)
  }

  lemma LeadKept(m: nat, ex: int, er: int)
    requires m < 1_0000_0000_0000_0000
    ensures Quantised(m, ex, er, DIGITS).coef == Quantised(m % 1000_0000_0000_0000, ex, er, DIGITS).coef
      <==> LeadIsLost(m, er - ex)
  {
    var t, b := m / 1000_0000_0000_0000, m % 1000_0000_0000_0000;
    assert m == t * 1000_0000_0000_0000 + b;
    hide Pow10, Drop;
    if t == 0 {
    } else if ex >= er {
      hide Quantised;
      SixteenDigits();
      Unexpanded(m, ex, er);
      QuantisedFits(b, ex, er, DIGITS);
    } else if er - ex <= 15 {
      SomeDropped(t, b, er - ex);
    } else {
      AllDropped(m, er - ex);
      AllDropped(b, er - ex);
    }
  }

  lemma SomeDropped(t: nat, b: nat, k: nat)
    requires t > 0 && k <= 15
    ensures Drop(t * 1000_0000_0000_0000 + b, k) > Drop(b, k)
  {
    hide Pow10, Drop;
    var p := Pow10(15 - k);
    SixteenDigits();
    PowSum(15 - k, k);
    assert t * (p * Pow10(k)) == (t * p) * Pow10(k);
    DropAbove(t * p, b, k);
    LeastMultiple(p, t);
    assert t * p == p * t;
  }

  lemma Unexpanded(m: nat, ex: int, er: int)
    requires m >= 1000_0000_0000_0000 && ex >= er
    ensures Quantised(m, ex, er, DIGITS) == Scaled(m, ex)
  {
    assert m >= Pow10(14) by {
      SixteenDigits();
      PowLess(14, 15);
    }
    hide Pow10;
  }

  /** Dropping sixteen digits or more leaves at most a one. */
  lemma AllDropped(m: nat, k: nat)
    requires m < 1_0000_0000_0000_0000 && k >= 16
    ensures Drop(m, k) == if k == 16 && m >= 4444_4444_4444_4445 then 1 else 0
  {
    hide Pow10, Drop, Repunit;
    SixteenDigits();
    Repunits();
    PowSum(16, 1);
    DropFloor(m, 16);
    DropFloor(m, 17);
    if k > 16 {
      StaysNothing(m, 17, k);
    }
  }

  lemma Repunits()
    ensures Repunit(16) == 1111_1111_1111_1111 && Repunit(17) == 1_1111_1111_1111_1111 && Pow10(1) == 10
  {
    assert Repunit(4) == 1111;
    assert Repunit(8) == 1111_1111;
    assert Repunit(12) == 1111_1111_1111;
    assert Pow10(0) == 1;
  }

  /** On words of the same two numbers, one pair in each layout, both give words of
      one number if and only if the sixteenth digit does not matter and the top of
      the packed word is not blank, or blank as a zero's. */
  lemma QuantisersAgree(x: bv64, r: bv64, y: bv64, s: bv64)
    requires FiniteBid(x) && FiniteBid(r) && DecodeBid(x) == DecodeDpd(y) && DecodeBid(r).expo == DecodeDpd(s).expo
    ensures var d, q := DecodeBid(x), QuantisedNumber(DecodeBid(x), DecodeBid(r));
      DecodeBid(BidResult(x, r)) == DecodeDpd(DpdResult(y, s)) <==>
        LeadIsLost(d.coef, DecodeBid(r).expo - d.expo) && (!DpdBlank(q) || q.coef == 0)
  {
    var d, e := DecodeBid(x), DecodeBid(r).expo;
    assert FiniteDpd(y) && FiniteDpd(s);
    DecodedIsD64(y);
    DecodedIsD64(s);
    hide BidResult, DpdResult, EncodeBid, EncodeDpd, DecodeBid, DecodeDpd, QuantisedNumber, FiniteBid, FiniteDpd,
      LeadIsLost, DpdBlank;
    SameTarget(d, DecodeBid(r));
    SameTarget(WithoutLead(d), DecodeDpd(s));
    BidResultIs(x, r);
    DpdResultIs(y, s);
    AgreeOn(d, e);
  }

  lemma SameTarget(x: Finite, r: Finite)
    ensures QuantisedNumber(x, r) == QuantisedNumber(x, Finite(false, 0, r.expo))
  {
  }

  lemma AgreeOn(d: Finite, e: int)
    requires IsD64(d) && 0 <= e + BIAS < EXPONENTS
    ensures var r := Finite(false, 0, e);
      var q, p := QuantisedNumber(d, r), QuantisedNumber(WithoutLead(d), r);
      && InBid(q) && IsD64(p)
      && (DecodeBid(EncodeBid(q)) == DecodeDpd(EncodeDpd(p)) <==>
        LeadIsLost(d.coef, e - d.expo) && (!DpdBlank(q) || q.coef == 0))
  {
    var r := Finite(false, 0, e);
    hide EncodeBid, EncodeDpd, DecodeBid, DecodeDpd, Quantised, LeadIsLost, DpdBlank;
    LeadGone(d);
    QuantisedInBid(d, r);
    QuantisedInBid(WithoutLead(d), r);
    LeadKept(d.coef, d.expo, e);
    BothDrop(d.coef, d.expo, e);
    DecodeAlike(QuantisedNumber(d, r), QuantisedNumber(WithoutLead(d), r));
  }

  /** A number in the binary layout and one of at most fifteen digits in the packed
      one. */
  lemma DecodeAlike(q: Finite, p: Finite)
    requires InBid(q) && IsD64(p) && p.coef < 1000_0000_0000_0000 && q.neg == p.neg
    requires q.coef == p.coef ==> q.expo == p.expo
    ensures DecodeBid(EncodeBid(q)) == DecodeDpd(EncodeDpd(p)) <==> q.coef == p.coef && (!DpdBlank(q) || q.coef == 0)
  {
    hide EncodeBid, EncodeDpd, DecodeBid, DecodeDpd, ReadsBack, DpdBlank, InBid, IsD64;
    NoLead(p);
    BidRoundTrip(q);
    DpdRoundTrip(p);
    Alike(q, p, DecodeBid(EncodeBid(q)), DecodeDpd(EncodeDpd(p)));
  }

  lemma Alike(q: Finite, p: Finite, b: Finite, d: Finite)
    requires p.coef < 1000_0000_0000_0000 && q.neg == p.neg && (q.coef == p.coef ==> q.expo == p.expo)
    requires b == if q == Finite(false, 0, -BIAS) then Finite(false, 0, 0) else q
    requires (d == p <==> !DpdBlank(p)) && d.coef == p.coef && d.neg == p.neg && (DpdBlank(p) ==> d.expo == 0)
    ensures b == d <==> q.coef == p.coef && (!DpdBlank(q) || q.coef == 0)
  {
  }

  lemma NoLead(p: Finite)
    requires p.coef < 1000_0000_0000_0000
    ensures ReadsBack(p.coef, p.expo + BIAS)
  {
  }

  lemma BothDrop(m: nat, ex: int, er: int)
    ensures LeadIsLost(m, er - ex) ==>
      Quantised(m, ex, er, DIGITS).expo == Quantised(m % 1000_0000_0000_0000, ex, er, DIGITS).expo
  {
    assert m < 1000_0000_0000_0000 ==> m % 1000_0000_0000_0000 == m;
  }

  /** Quantising twice like r is quantising once, bit for bit. */
  lemma BidIdempotent(x: bv64, r: bv64)
    requires FiniteBid(x) && FiniteBid(r)
    ensures BidResult(BidResult(x, r), r) == BidResult(x, r)
  {
    var q, e := QuantisedNumber(DecodeBid(x), DecodeBid(r)), DecodeBid(r).expo;
    var w := BidResult(x, r);
    hide BidResult, EncodeBid, Quantised, MantBid, QuantExpBid, SignBit, Nat;
    BidResultIs(x, r);
    BidRoundTrip(q);
    BidResultIs(w, r);
    QuantisedTwice(DecodeBid(x).coef, DecodeBid(x).expo, e, DIGITS);
    if q == Finite(false, 0, -BIAS) {
      QuantisedZero(DecodeBid(x).coef, DecodeBid(x).expo, e, DIGITS);
      ZeroToZero(0, e);
    }
  }

  lemma ZeroToZero(ex: int, er: int)
    requires er <= ex
    ensures Quantised(0, ex, er, DIGITS) == Scaled(0, er)
  {
    hide Pow10;
    ExpandIsExact(0, ex, er, DIGITS);
  }

  /** In the packed layout it is unless the first result has a blank top and is no
      zero: it then reads as a number at exponent 0. */
  lemma DpdIdempotent(y: bv64, s: bv64)
    requires FiniteDpd(y) && FiniteDpd(s)
    ensures var q := QuantisedNumber(WithoutLead(DecodeDpd(y)), DecodeDpd(s));
      DpdResult(DpdResult(y, s), s) == DpdResult(y, s) <==> !DpdBlank(q) || q.coef == 0
  {
    var d, e := WithoutLead(DecodeDpd(y)), DecodeDpd(s).expo;
    var q, w := QuantisedNumber(d, DecodeDpd(s)), DpdResult(y, s);
    ExpoRange(s);
    hide DpdResult, EncodeDpd, Quantised, MantDpd, UnpackMant, QuantExpDpd, SignBit, Val, Pow10, Nat, HasBlankTop;
    DpdResultIs(y, s);
    DpdRoundTrip(q);
    DpdResultIs(w, s);
    QuantisedTwice(d.coef, d.expo, e, DIGITS);
    if DpdBlank(q) && q.coef == 0 {
      QuantisedZero(d.coef, d.expo, e, DIGITS);
      ZeroToZero(0, e);
    } else if DpdBlank(q) {
      QuantisedExpo(d.coef, d.expo, e, DIGITS);
      SixteenDigits();
      FromZero(q.coef, e, DIGITS);
      DpdTop(q);
      DpdTop(QuantisedNumber(WithoutLead(DecodeDpd(w)), DecodeDpd(s)));
    }
  }
}
