/** Finite decimal numbers. */
module Decimal {
  /** (-1)^neg * coef * 10^expo */
  datatype Finite = Finite(neg: bool, coef: nat, expo: int)
}

/** 32-bit decimals as numbers: what the bit layouts encode, and quantising. */
module Coding32 {
  import opened Words
  import opened Bcd
  import opened Nibbles
  import opened Decimal
  import opened Declet
  import opened Decimal32
  import opened Quantise

  const DIGITS: nat := 7

  predicate IsD32(x: Finite) {
    x.coef < 1000_0000 && 0 <= x.expo + BIAS < EXPONENTS
  }

  function SignWord(neg: bool): bv32 {
    if neg then 1 else 0
  }

  // ----- binary -----

  /** Numbers that the binary layout has a word for, some of them with a
      coefficient past seven digits. */
  predicate InBid(x: Finite) {
    x.coef < 0xa0_0000 && 0 <= x.expo + BIAS < EXPONENTS
  }

  function EncodeBid(x: Finite): bv32
    requires InBid(x)
  {
    AssembleBid(Bits32(x.coef), Bits32(x.expo + BIAS), SignWord(x.neg))
  }

  function DecodeBid(b: bv32): Finite {
    Finite(SignBit(b) < 0, MantBid(b) as nat, QuantExpBid(b))
  }

  lemma BelowWord(w: bv32)
    ensures w < 0xa0_0000 <==> w as nat < 0xa0_0000
    ensures w < 192 <==> w as nat < 192
    ensures w == 0 <==> w as nat == 0
  {
  }

  lemma FieldsFit(x: Finite)
    requires InBid(x)
    ensures FitsBid(Bits32(x.coef)) && Bits32(x.expo + BIAS) < 192
  {
    hide Bits32;
    Bits32Value(x.coef);
    Bits32Value(x.expo + BIAS);
    BelowWord(Bits32(x.coef));
    BelowWord(Bits32(x.expo + BIAS));
  }

  /** A binary 32-bit decimal decodes to the number it was built from, except
      that the plain zero word reads as exponent 0. */
  lemma BidRoundTrip(x: Finite)
    requires InBid(x)
    ensures DecodeBid(EncodeBid(x)) == if x == Finite(false, 0, -BIAS) then Finite(false, 0, 0) else x
  {
    hide Bits32, AssembleBid, MantBid, ExpoBid, SignBit, FitsBid;
    var m, ex, s := Bits32(x.coef), Bits32(x.expo + BIAS), SignWord(x.neg);
    FieldsFit(x);
    BidMant(m, ex, s);
    BidExpo(m, ex, s);
    BidSign(m, ex, s);
    BidZero(m, ex, s);
    Bits32Value(x.coef);
    Bits32Value(x.expo + BIAS);
    BelowWord(m);
    BelowWord(ex);
  }

  // ----- densely packed -----

  function EncodeDpd(x: Finite): bv32
    requires IsD32(x)
  {
    BcdFits(x.coef);
    AssembleDpd(Bits32(BcdOf(x.coef)), Bits32(x.expo + BIAS), SignWord(x.neg))
  }

  function DecodeDpd(b: bv32): Finite {
    Finite(SignBit(b) < 0, Val(UnpackMant(MantDpd(b)) as nat), QuantExpDpd(b))
  }

  lemma SevenDigits()
    ensures Pow10(7) == 1000_0000 && Pow16(7) == 0x1000_0000
    ensures Pow10(6) == 100_0000 && Pow16(6) == 0x100_0000
  {
    assert Pow10(3) == 1000 && Pow16(3) == 0x1000;
  }

  lemma BcdFits(m: nat)
    requires m < 1000_0000
    ensures BcdOf(m) < 0x1000_0000
  {
    hide Val, IsBcd, BcdOf;
    SevenDigits();
    ValOfBcdOf(m);
    ValBound(BcdOf(m), 7);
  }

  predicate Small(w: bv32) {
    w & 0xf <= 9
  }

  lemma Bcd7Is(w: bv32)
    ensures IsBcd7(w) <==> BcdBits32(w, 7)
  {
    hide IsBcd7, BcdBits32, Small, Next32;
    Bcd7Parts(w);
    NextIs(w);
    var w1 := Next32(w);
    var w2 := Next32(w1);
    var w3 := Next32(w2);
    var w4 := Next32(w3);
    var w5 := Next32(w4);
    var w6 := Next32(w5);
    NibbleStep(w, 7);
    NibbleStep(w1, 6);
    NibbleStep(w2, 5);
    NibbleStep(w3, 4);
    NibbleStep(w4, 3);
    NibbleStep(w5, 2);
    NibbleStep(w6, 1);
    NoNibble(Next32(w6));
  }

  lemma NibbleStep(w: bv32, k: nat)
    requires k > 0
    ensures BcdBits32(w, k) <==> Small(w) && BcdBits32(Next32(w), k - 1)
  {
  }

  lemma NoNibble(w: bv32)
    ensures BcdBits32(w, 0) <==> w == 0
  {
  }

  lemma NextIs(w: bv32)
    ensures Next32(w) == w >> 4 && Next32(w >> 4) == w >> 8 && Next32(w >> 8) == w >> 12
    ensures Next32(w >> 12) == w >> 16 && Next32(w >> 16) == w >> 20 && Next32(w >> 20) == w >> 24
    ensures Next32(w >> 24) == w >> 28
  {
  }

  lemma Bcd7Parts(w: bv32)
    ensures IsBcd7(w) <==>
      (Small(w) && Small(w >> 4) && Small(w >> 8) && Small(w >> 12) && Small(w >> 16)
       && Small(w >> 20) && Small(w >> 24) && w >> 28 == 0)
  {
  }

  lemma BcdWord(m: nat)
    requires m < 1000_0000
    ensures BcdOf(m) < TWO32 && IsBcd7(Bits32(BcdOf(m))) && Val(Bits32(BcdOf(m)) as nat) == m
  {
    hide Bits32, IsBcd7, Val, IsBcd, BcdOf, Pow16;
    BcdFits(m);
    SevenDigits();
    ValOfBcdOf(m);
    Bits32Value(BcdOf(m));
    BcdBits32Is(Bits32(BcdOf(m)), 7);
    Bcd7Is(Bits32(BcdOf(m)));
  }

  /** The top of the packed word is blank. */
  predicate DpdBlank(x: Finite) {
    !x.neg && x.coef < 100_0000 && x.expo == -BIAS
  }

  /** A packed 32-bit decimal decodes to the number it was built from, except that
      a positive number with a leading zero digit at the lowest exponent reads as
      exponent 0. */
  lemma DpdRoundTrip(x: Finite)
    requires IsD32(x)
    ensures DecodeDpd(EncodeDpd(x)) == if DpdBlank(x) then x.(expo := 0) else x
  {
    hide Bits32, AssembleDpd, MantDpd, UnpackMant, ExpoDpd, SignBit, IsBcd7, Val, IsBcd, BcdOf, Top1;
    BcdFits(x.coef);
    var m, ex, s := Bits32(BcdOf(x.coef)), Bits32(x.expo + BIAS), SignWord(x.neg);
    FieldsFit(x);
    BcdWord(x.coef);
    DpdMant(m, ex, s);
    DpdExpo(m, ex, s);
    DpdSign(m, ex, s);
    DpdZero(m, ex, s);
    Bits32Value(x.expo + BIAS);
    BelowWord(ex);
    TopDigit(x.coef);
  }

  lemma TopDigit(m: nat)
    requires m < 1000_0000
    ensures BcdOf(m) < TWO32 && (Top1(Bits32(BcdOf(m))) == 0 <==> m < 100_0000)
  {
    hide Bits32, Val, IsBcd, BcdOf;
    BcdFits(m);
    SevenDigits();
    ValOfBcdOf(m);
    ValBound(BcdOf(m), 6);
    Bits32Value(BcdOf(m));
    TopWord(Bits32(BcdOf(m)));
  }

  lemma TopWord(w: bv32)
    ensures Top1(w) == 0 <==> w as nat < 0x100_0000
  {
  }

  /** The two layouts of one number decode to one number, but for positive
      integers of up to six digits at the lowest exponent; and to that number, but
      for those and the positive zero there. */
  lemma SameNumber(x: Finite)
    requires IsD32(x)
    ensures DecodeBid(EncodeBid(x)) == DecodeDpd(EncodeDpd(x)) <==> !DpdBlank(x) || x.coef == 0
    ensures DecodeBid(EncodeBid(x)) == x == DecodeDpd(EncodeDpd(x)) <==> !DpdBlank(x)
  {
    hide EncodeBid, EncodeDpd, DecodeBid, DecodeDpd;
    BidRoundTrip(x);
    DpdRoundTrip(x);
  }

  /** What 1234567 is as a word. */
  lemma Sample()
    ensures EncodeBid(Finite(false, 1234567, 0)) == 0x3292_d687 && EncodeDpd(Finite(false, 1234567, 0)) == 0x2654_d2e7
  {
    SampleFields();
    SampleWords(1234567, 0x12_d687, 101, 101);
    SampleWords(BcdOf(1234567), 0x123_4567, 101, 101);
    hide Bits32, BcdOf;
    SampleBid(0x12_d687, 101);
    SampleDpd(0x123_4567, 101);
    hide AssembleBid, AssembleDpd;
  }

  lemma SampleFields()
    ensures BcdOf(1234567) == 0x123_4567
  {
    assert BcdOf(123) == 0x123;
  }

  lemma SampleWords(m: u32, v: bv32, n: u32, w: bv32)
    requires v as nat == m && w as nat == n
    ensures Bits32(m) == v && Bits32(n) == w
  {
    hide Bits32;
    Bits32Value(m);
    Bits32Value(n);
    Same32(Bits32(m), v);
    Same32(Bits32(n), w);
  }

  lemma SampleBid(m: bv32, ex: bv32)
    requires m == 0x12_d687 && ex == 101
    ensures AssembleBid(m, ex, 0) == 0x3292_d687
  {
  }

  lemma SampleDpd(m: bv32, ex: bv32)
    requires m == 0x123_4567 && ex == 101
    ensures AssembleDpd(m, ex, 0) == 0x2654_d2e7
  {
  }

  // ----- a BCD coefficient into the binary layout -----

  /** The nibbles of a word in the opposite order. */
  function Mirror(b: bv32): bv32 {
    var h := ((b & 0xffff_0000) >> 16) ^ ((b & 0x0000_ffff) << 16);
    var q := ((h & 0xff00_ff00) >> 8) ^ ((h & 0x00ff_00ff) << 8);
    ((q & 0xf0f0_f0f0) >> 4) ^ ((q & 0x0f0f_0f0f) << 4)
  }

  /** Nibble k, counted from the low end. */
  function NibbleAt(w: bv32, k: bv6): bv32
    requires k < 8
  {
    (w >> (4 * k)) & 0xf
  }

  /** Mirrored and shifted, the seven low nibbles come in the opposite order. */
  lemma MirrorReverses(w: bv32, k: bv6)
    requires k < 7
    ensures NibbleAt(Mirror(w) >> 4, k) == NibbleAt(w, 6 - k)
  {
  }

  lemma NibbleAtNext(w: bv32, k: bv6)
    requires 0 < k < 8
    ensures NibbleAt(w, k) == NibbleAt(Next32(w), k - 1)
  {
  }

  lemma NibbleAtZero(w: bv32)
    ensures NibbleAt(w, 0) == w & 0xf
  {
  }

  lemma {:induction false} NibbleAtIs(w: bv32, n: nat, k: bv6, j: nat)
    requires w as nat == n && k as nat == j && k < 8
    ensures NibbleAt(w, k) as nat == DropNibbles(n, j) % 16
    decreases j
  {
    NibblesOf32(w, n);
    if j == 0 {
      assert k == 0;
      NibbleAtZero(w);
    } else {
      NibbleAtNext(w, k);
      NibbleAtIs(Next32(w), n / 16, k - 1, j - 1);
      DropNibblesAhead(n, j);
    }
  }

  function Low7(w: bv32): bv32 {
    w & 0x0fff_ffff
  }

  lemma Low7Nibbles(w: bv32, k: bv6)
    requires k < 7
    ensures NibbleAt(Low7(w), k) == NibbleAt(w, k)
  {
  }

  function Eighth(hi: bv4, lo: bv28): bv32 {
    (hi as bv32 << 28) | lo as bv32
  }

  lemma EighthValue(hi: bv4, lo: bv28)
    ensures Eighth(hi, lo) as nat == hi as nat * 0x1000_0000 + lo as nat
  {
    calc {
      Eighth(hi, lo) as nat;
      ((hi as bv32 << 28) | lo as bv32) as nat;
    }
  }

  lemma EighthWhole(w: bv32)
    ensures Eighth((w >> 28) as bv4, (w & 0x0fff_ffff) as bv28) == w
  {
  }

  lemma Low7Narrow(w: bv32)
    ensures Low7(w) == ((w & 0x0fff_ffff) as bv28) as bv32
  {
  }

  lemma Narrow28(lo: bv28)
    ensures (lo as bv32) as nat == lo as nat < 0x1000_0000
  {
  }

  /** A word is its eighth nibble and the seven below. */
  lemma Low7Of(w: bv32) returns (h: nat)
    ensures w as nat == h * 0x1000_0000 + Low7(w) as nat && Low7(w) as nat < 0x1000_0000
  {
    hide Eighth, Low7;
    var hi, lo := (w >> 28) as bv4, (w & 0x0fff_ffff) as bv28;
    EighthWhole(w);
    EighthValue(hi, lo);
    Low7Narrow(w);
    Narrow28(lo);
    h := hi as nat;
  }

  lemma ShiftOn(v: bv32, k: bv6)
    requires k < 7
    ensures (v >> (4 * k)) >> 4 == v >> (4 * (k + 1))
    ensures (v >> (4 * k)) & 0xf == NibbleAt(v, k)
    ensures v >> 0 == v
  {
  }

  lemma Opposite(k: bv6, j: nat)
    requires k < 7 && k as nat == j
    ensures (6 - k) as nat == 6 - j && (k + 1) as nat == j + 1
  {
  }

  /** Nibble k of a mirrored word is the digit that 6 - k nibbles stand below. */
  lemma MirrorDigit(word: bv32, k: bv6, j: nat)
    requires k < 7 && k as nat == j
    ensures NibbleAt(Mirror(word) >> 4, k) as nat == DropNibbles(Low7(word) as nat, 6 - j) % 16
  {
    hide Mirror, NibbleAt, Low7, DropNibbles;
    MirrorReverses(word, k);
    Low7Nibbles(word, 6 - k);
    Opposite(k, j);
    NibbleAtIs(Low7(word), Low7(word) as nat, 6 - k, 6 - j);
  }

  /** The loop that reads a coefficient off the seven low nibbles of a word,
      highest first; an eighth nibble is shifted out before it starts. */
  method ReadNibbles(word: bv32) returns (m: nat)
    ensures m == Val(Low7(word) as nat)
  {
    hide Mirror, Val, DropNibbles, Low7, NibbleAt;
    ghost var v, low, k := Mirror(word) >> 4, Low7(word) as nat, 0 as bv6;
    var w := Mirror(word) >> 4;
    var i: nat := 7;
    m := 0;
    ghost var h := Low7Of(word);
    SevenDigits();
    DropAll(low, 7);
    ValZero();
    ShiftOn(v, 0);
    while i > 0
      invariant i <= 7 && k <= 7 && k as nat == 7 - i
      invariant w == v >> (4 * k)
      invariant m == Val(DropNibbles(low, i))
    {
      BelowSeven(k);
      ShiftOn(v, k);
      MirrorDigit(word, k, 7 - i);
      NextDigit(low, i);
      Opposite(k, 7 - i);
      m := m * 10;
      m := m + (w & 0xf) as nat;
      w := w >> 4;
      i := i - 1;
      k := k + 1;
    }
    DropNone(low);
  }

  lemma BelowSeven(k: bv6)
    ensures k < 7 <==> k as nat < 7
  {
  }

  lemma ValZero()
    ensures Val(0) == 0
  {
  }

  lemma DropNone(n: nat)
    ensures DropNibbles(n, 0) == n
  {
  }

  lemma NextDigit(n: nat, i: nat)
    requires i > 0
    ensures Val(DropNibbles(n, i - 1)) == Val(DropNibbles(n, i)) * 10 + DropNibbles(n, i - 1) % 16
  {
    ValParts(DropNibbles(n, i - 1));
  }

  /** The seven low nibbles spell the number without its eighth digit. */
  lemma Low7Val(w: bv32, n: nat)
    requires w as nat == n && IsBcd(n)
    ensures Val(Low7(w) as nat) == Val(n) % 1000_0000
  {
    hide Low7, Val, IsBcd;
    var h, l := Low7Parts(w, n);
    ValSplit7(n, h, l);
  }

  lemma Low7Parts(w: bv32, n: nat) returns (h: nat, l: nat)
    requires w as nat == n
    ensures n == h * 0x1000_0000 + l && l < 0x1000_0000 && l == Low7(w) as nat
  {
    hide Low7;
    h := Low7Of(w);
    l := Low7(w) as nat;
  }

  lemma ValSplit7(n: nat, h: nat, low: nat)
    requires n == h * 0x1000_0000 + low && low < 0x1000_0000 && IsBcd(n)
    ensures Val(low) == Val(n) % 1000_0000
  {
    SevenDigits();
    hide Val, IsBcd, Pow10, Pow16;
    ValSplit(h, low, 7);
    ValBound(low, 7);
    Remainder7(Val(h), Val(low));
  }

  lemma Remainder7(q: nat, r: nat)
    requires r < 1000_0000
    ensures (q * 1000_0000 + r) % 1000_0000 == r
  {
  }

  /** A parsed coefficient in the binary layout: an eighth digit, which rounding
      up seven nines leaves, is lost. */
  method BcdToBid(mant: u32, expo: int, neg: bool) returns (r: bv32)
    requires IsBcd(mant)
    ensures r == AssembleBid(Bits32(Val(mant) % 1000_0000), Bits32((expo + BIAS) % TWO32), SignWord(neg))
  {
    hide AssembleBid, Low7, Val, IsBcd, Bits32;
    var m := ReadNibbles(Bits32(mant));
    Bits32Value(mant);
    Low7Val(Bits32(mant), mant);
    r := AssembleBid(Bits32(m), Bits32((expo + BIAS) % TWO32), SignWord(neg));
  }

  /** The packed word of the BCD form of ten million, which has a digit too many. */
  function PackedOverflow(ex: bv32, s: bv32): bv32 {
    AssembleDpd(0x1000_0000, ex, s)
  }

  lemma PackedOverflowMant(ex: bv32, s: bv32)
    requires ex < 192
    ensures UnpackMant(MantDpd(PackedOverflow(ex, s))) == 0x800_0000
  {
    assert Pack(0) == 0 && Unpack(0) == 0;
    OverflowFields(ex, s);
    hide MantDpd, AssembleDeclets, Pack, Unpack;
  }

  lemma OverflowFields(ex: bv32, s: bv32)
    requires ex < 192
    ensures var m := MantDpd(AssembleDeclets(0, 0, 0x10, ex, s));
      LowDeclet(m) == 0 && HighDeclet(m) == 0 && Lead(m) == 0x8000
  {
  }

  lemma EightMillion()
    ensures Val(0x800_0000) == 800_0000
  {
    hide Val;
    SevenDigits();
    ValShift(8, 6);
    EightDigit();
  }

  lemma EightDigit()
    ensures Val(8) == 8
  {
    assert Val(0) == 0;
  }

  /** Rounding up seven nines leaves ten million, which neither layout holds: the
      binary one keeps nothing of it, the packed one takes it for eight million. */
  lemma NinesOverflow(expo: int, neg: bool)
    requires 0 <= expo + BIAS < EXPONENTS
    ensures Val(0x1000_0000) == 1000_0000
    ensures DecodeBid(AssembleBid(Bits32(1000_0000 % 1000_0000), Bits32(expo + BIAS), SignWord(neg))).coef == 0
    ensures DecodeDpd(PackedOverflow(Bits32(expo + BIAS), SignWord(neg))).coef == 800_0000
  {
    TenMillion();
    var x := Finite(neg, 0, expo);
    FieldsFit(x);
    hide AssembleBid, MantBid, MantDpd, UnpackMant, PackedOverflow, Bits32, Val, QuantExpBid, QuantExpDpd, SignBit;
    BidRoundTrip(x);
    PackedOverflowMant(Bits32(expo + BIAS), SignWord(neg));
    EightMillion();
  }

  lemma TenMillion()
    ensures Val(0x1000_0000) == 1000_0000
  {
    hide Val;
    SevenDigits();
    ValShift(1, 7);
    OneDigit();
  }

  lemma OneDigit()
    ensures Val(1) == 1
  {
    assert Val(0) == 0;
  }

  // ----- quantising on the two layouts -----

  function QuantisedBid(x: bv32, r: bv32): Scaled {
    Quantised(MantBid(x) as nat, QuantExpBid(x), QuantExpBid(r), DIGITS)
  }

  function QuantisedDpd(x: bv32, r: bv32): Scaled {
    Quantised(Val(UnpackMant(MantDpd(x)) as nat), QuantExpDpd(x), QuantExpDpd(r), DIGITS)
  }

  lemma ExpoRange(b: bv32)
    ensures 0 <= QuantExpBid(b) + BIAS < 256 && 0 <= QuantExpDpd(b) + BIAS < 256
  {
    ExpoBidRange(b);
    ExpoDpdRange(b);
  }

  lemma ExpoBidRange(b: bv32)
    ensures ExpoBid(b) as nat < 256
  {
  }

  lemma ExpoDpdRange(b: bv32)
    ensures ExpoDpd(b) as nat < 256
  {
  }

  lemma MantRange(b: bv32)
    ensures MantBid(b) as nat < 0xa0_0000
  {
    MantFits(b);
    hide MantBid;
    BelowWord(MantBid(b));
  }

  lemma MantFits(b: bv32)
    ensures MantBid(b) < 0xa0_0000
  {
  }

  /** Every declet unpacks to digits and no leading digit is above nine. */
  lemma UnpackedIsBcd(b: bv32)
    ensures IsBcd7(UnpackMant(MantDpd(b)))
  {
    LeadDigit(b);
    var m := MantDpd(b);
    hide MantDpd, Unpack;
    DecletRange(m);
    UnpackIsBcd(HighDeclet(m));
    UnpackIsBcd(LowDeclet(m));
    JoinIsBcd(Lead(m), Unpack(HighDeclet(m)), Unpack(LowDeclet(m)));
  }

  lemma DecletRange(m: bv32)
    ensures LowDeclet(m) < 0x400 && HighDeclet(m) < 0x400
  {
  }

  lemma LeadDigit(b: bv32)
    ensures Lead(MantDpd(b)) & 0xfff == 0 && Lead(MantDpd(b)) <= 0x9000
  {
  }

  lemma JoinIsBcd(lead: bv32, mid: bv32, low: bv32)
    requires lead & 0xfff == 0 && lead <= 0x9000 && IsBcd3(mid) && IsBcd3(low)
    ensures IsBcd7(Join(lead, mid, low))
  {
  }

  lemma UnpackedValue(b: bv32)
    ensures var n := UnpackMant(MantDpd(b)) as nat; IsBcd(n) && n < 0x1000_0000
  {
    hide UnpackMant, MantDpd, IsBcd7, BcdBits32, IsBcd, Pow16;
    UnpackedIsBcd(b);
    Bcd7Is(UnpackMant(MantDpd(b)));
    BcdBits32Is(UnpackMant(MantDpd(b)), 7);
    SevenDigits();
  }

  lemma BidResultFits(x: bv32, r: bv32)
    ensures QuantisedBid(x, r).coef < TWO32 && 0 <= QuantisedBid(x, r).expo + BIAS < 256
  {
    hide MantBid, QuantExpBid, QuantExpDpd, Quantised;
    ExpoRange(r);
    ExpoRange(x);
    MantRange(x);
    SevenDigits();
    QuantisedBound(MantBid(x) as nat, QuantExpBid(x), QuantExpBid(r), DIGITS);
    QuantisedExpo(MantBid(x) as nat, QuantExpBid(x), QuantExpBid(r), DIGITS);
  }

  lemma DpdResultFits(x: bv32, r: bv32)
    ensures QuantisedDpd(x, r).coef < 1000_0000 && 0 <= QuantisedDpd(x, r).expo + BIAS < 256
  {
    hide MantDpd, UnpackMant, QuantExpBid, QuantExpDpd, Quantised, Val, IsBcd;
    var m := Val(UnpackMant(MantDpd(x)) as nat);
    UnpackedValue(x);
    SevenDigits();
    ValBound(UnpackMant(MantDpd(x)) as nat, 7);
    ExpoRange(r);
    ExpoRange(x);
    QuantisedFits(m, QuantExpDpd(x), QuantExpDpd(r), DIGITS);
    QuantisedExpo(m, QuantExpDpd(x), QuantExpDpd(r), DIGITS);
  }

  /** The binary word that quantising x like r gives. */
  function BidResult(x: bv32, r: bv32): bv32 {
    BidResultFits(x, r);
    var q := QuantisedBid(x, r);
    AssembleBid(Bits32(q.coef), Bits32(q.expo + BIAS), SignWord(SignBit(x) < 0))
  }

  /** The packed word that quantising x like r gives. */
  function DpdResult(x: bv32, r: bv32): bv32 {
    DpdResultFits(x, r);
    var q := QuantisedDpd(x, r);
    BcdFits(q.coef);
    AssembleDpd(Bits32(BcdOf(q.coef)), Bits32(q.expo + BIAS), SignWord(SignBit(x) < 0))
  }

  method QuantizeBid(x: bv32, r: bv32) returns (z: bv32)
    ensures z == BidResult(x, r)
  {
    hide AssembleBid, MantBid, QuantExpBid, Quantised, SignBit, Bits32;
    BidResultFits(x, r);
    var er, ex := QuantExpBid(r), QuantExpBid(x);
    var m := MantBid(x) as nat;
    m, ex := QuantiseBinary(m, ex, er, DIGITS);
    z := AssembleBid(Bits32(m), Bits32(ex + BIAS), SignWord(SignBit(x) < 0));
  }

  method QuantizeDpd(x: bv32, r: bv32) returns (z: bv32)
    ensures z == DpdResult(x, r)
  {
    hide AssembleDpd, MantDpd, UnpackMant, QuantExpDpd, Quantised, SignBit, Bits32, Val, BcdOf, IsBcd;
    DpdResultFits(x, r);
    UnpackedValue(x);
    SevenDigits();
    var er, ex := QuantExpDpd(r), QuantExpDpd(x);
    var b := UnpackMant(MantDpd(x)) as nat;
    b, ex := QuantiseBcd(b, ex, er, DIGITS);
    BcdOfVal(b);
    z := AssembleDpd(Bits32(b), Bits32(ex + BIAS), SignWord(SignBit(x) < 0));
  }

  /** x rounded or expanded to the exponent of r. */
  function QuantisedNumber(x: Finite, r: Finite): Finite {
    var q := Quantised(x.coef, x.expo, r.expo, DIGITS);
    Finite(x.neg, q.coef, q.expo)
  }

  /** Words of finite numbers. */
  predicate FiniteBid(b: bv32) {
    QuantExpBid(b) + BIAS < EXPONENTS
  }

  predicate FiniteDpd(b: bv32) {
    QuantExpDpd(b) + BIAS < EXPONENTS
  }

  lemma DecodedInBid(b: bv32)
    requires FiniteBid(b)
    ensures InBid(DecodeBid(b))
  {
    hide MantBid, QuantExpBid, QuantExpDpd, SignBit;
    ExpoRange(b);
    MantRange(b);
  }

  lemma DecodedIsD32(b: bv32)
    requires FiniteDpd(b)
    ensures IsD32(DecodeDpd(b))
  {
    hide MantDpd, UnpackMant, QuantExpBid, QuantExpDpd, SignBit, Val, IsBcd, Pow10, Pow16;
    ExpoRange(b);
    UnpackedValue(b);
    SevenDigits();
    ValBound(UnpackMant(MantDpd(b)) as nat, 7);
  }

  lemma QuantisedInBid(x: Finite, r: Finite)
    requires InBid(x) && InBid(r)
    ensures InBid(QuantisedNumber(x, r)) && (IsD32(x) ==> IsD32(QuantisedNumber(x, r)))
  {
    SevenDigits();
    hide Quantised, Pow10;
    QuantisedBound(x.coef, x.expo, r.expo, DIGITS);
    QuantisedExpo(x.coef, x.expo, r.expo, DIGITS);
    if IsD32(x) {
      QuantisedFits(x.coef, x.expo, r.expo, DIGITS);
    }
  }

  lemma BidResultIs(x: bv32, r: bv32)
    requires FiniteBid(x) && FiniteBid(r)
    ensures var q := QuantisedNumber(DecodeBid(x), DecodeBid(r)); InBid(q) && BidResult(x, r) == EncodeBid(q)
  {
    DecodedInBid(x);
    DecodedInBid(r);
    QuantisedInBid(DecodeBid(x), DecodeBid(r));
    hide AssembleBid, MantBid, QuantExpBid, Quantised, SignBit, Bits32, InBid, FiniteBid, SignWord;
  }

  lemma DpdResultIs(y: bv32, s: bv32)
    requires FiniteDpd(y) && FiniteDpd(s)
    ensures var q := QuantisedNumber(DecodeDpd(y), DecodeDpd(s)); IsD32(q) && DpdResult(y, s) == EncodeDpd(q)
  {
    DecodedIsD32(y);
    DecodedIsD32(s);
    QuantisedInBid(DecodeDpd(y), DecodeDpd(s));
    hide AssembleDpd, MantDpd, UnpackMant, QuantExpDpd, Quantised, SignBit, Bits32, Val, BcdOf, IsD32, FiniteDpd,
      SignWord;
  }

  /** The loops on a binary coefficient: the word they give decodes to the quantised
      number, unless it is all zero. */
  lemma BidQuantises(x: bv32, r: bv32)
    requires FiniteBid(x) && FiniteBid(r)
    ensures var q := QuantisedNumber(DecodeBid(x), DecodeBid(r));
      && (DecodeBid(BidResult(x, r)) == q <==> q != Finite(false, 0, -BIAS))
      && DecodeBid(BidResult(x, r)).coef == q.coef && DecodeBid(BidResult(x, r)).neg == q.neg
  {
    hide BidResult, EncodeBid, DecodeBid, QuantisedNumber;
    BidResultIs(x, r);
    BidRoundTrip(QuantisedNumber(DecodeBid(x), DecodeBid(r)));
  }

  /** The loops on nibbles: theirs does unless its top is blank. */
  lemma DpdQuantises(y: bv32, s: bv32)
    requires FiniteDpd(y) && FiniteDpd(s)
    ensures var q := QuantisedNumber(DecodeDpd(y), DecodeDpd(s));
      && (DecodeDpd(DpdResult(y, s)) == q <==> !DpdBlank(q))
      && DecodeDpd(DpdResult(y, s)).coef == q.coef && DecodeDpd(DpdResult(y, s)).neg == q.neg
  {
    hide DpdResult, EncodeDpd, DecodeDpd, QuantisedNumber;
    DpdResultIs(y, s);
    DpdRoundTrip(QuantisedNumber(DecodeDpd(y), DecodeDpd(s)));
  }

  /** On words of the same two numbers, one pair in each layout, both give words of
      one number, unless that is a positive integer of up to six digits at the
      lowest exponent. */
  lemma QuantisersAgree(x: bv32, r: bv32, y: bv32, s: bv32)
    requires FiniteBid(x) && FiniteBid(r) && DecodeBid(x) == DecodeDpd(y) && DecodeBid(r).expo == DecodeDpd(s).expo
    ensures var q := QuantisedNumber(DecodeBid(x), DecodeBid(r));
      DecodeBid(BidResult(x, r)) == DecodeDpd(DpdResult(y, s)) <==> !DpdBlank(q) || q.coef == 0
  {
    var q := QuantisedNumber(DecodeBid(x), DecodeBid(r));
    assert QuantisedNumber(DecodeDpd(y), DecodeDpd(s)) == q;
    assert FiniteDpd(y) && FiniteDpd(s);
    hide BidResult, DpdResult, EncodeBid, EncodeDpd, DecodeBid, DecodeDpd, QuantisedNumber, FiniteBid, FiniteDpd;
    BidResultIs(x, r);
    DpdResultIs(y, s);
    SameNumber(q);
  }

  /** Quantising twice like r is quantising once, bit for bit. */
  lemma BidIdempotent(x: bv32, r: bv32)
    requires FiniteBid(x) && FiniteBid(r)
    ensures BidResult(BidResult(x, r), r) == BidResult(x, r)
  {
    var q, e := QuantisedNumber(DecodeBid(x), DecodeBid(r)), DecodeBid(r).expo;
    var w := BidResult(x, r);
    hide BidResult, EncodeBid, Quantised, MantBid, QuantExpBid, SignBit;
    BidResultIs(x, r);
    BidRoundTrip(q);
    BidResultIs(w, r);
    QuantisedTwice(DecodeBid(x).coef, DecodeBid(x).expo, e, DIGITS);
    if q == Finite(false, 0, -BIAS) {
      QuantisedZero(DecodeBid(x).coef, DecodeBid(x).expo, e, DIGITS);
      ZeroToZero(0, e);
    }
  }

  lemma ZeroToZero(ex: int, er: int)
    requires er <= ex
    ensures Quantised(0, ex, er, DIGITS) == Scaled(0, er)
  {
    hide Pow10;
    ExpandIsExact(0, ex, er, DIGITS);
  }

  /** In the packed layout it is unless the word decodes to another number: the
      positive integer of up to six digits at the lowest exponent is taken for one
      at exponent 0, which can be expanded. */
  lemma DpdIdempotent(y: bv32, s: bv32)
    requires FiniteDpd(y) && FiniteDpd(s)
    ensures var q := QuantisedNumber(DecodeDpd(y), DecodeDpd(s));
      DpdResult(DpdResult(y, s), s) == DpdResult(y, s) <==> !DpdBlank(q) || q.coef == 0
  {
    var q, e := QuantisedNumber(DecodeDpd(y), DecodeDpd(s)), DecodeDpd(s).expo;
    var w := DpdResult(y, s);
    hide DpdResult, EncodeDpd, Quantised, MantDpd, UnpackMant, QuantExpDpd, SignBit, Val, Pow10;
    DpdResultIs(y, s);
    DpdRoundTrip(q);
    DpdResultIs(w, s);
    QuantisedTwice(DecodeDpd(y).coef, DecodeDpd(y).expo, e, DIGITS);
    if DpdBlank(q) && q.coef == 0 {
      QuantisedZero(DecodeDpd(y).coef, DecodeDpd(y).expo, e, DIGITS);
      ZeroToZero(0, e);
    } else if DpdBlank(q) {
      QuantisedExpo(DecodeDpd(y).coef, DecodeDpd(y).expo, e, DIGITS);
      ExpoRange(s);
      SevenDigits();
      FromZero(q.coef, e, DIGITS);
      DpdRoundTrip(QuantisedNumber(DecodeDpd(w), DecodeDpd(s)));
    }
  }

  // ----- scaling -----

  /** Scaling by a power of ten moves the exponent by exactly n and changes
      nothing else, while the result is still a finite number. */
  lemma ScalbnIs(x: Finite, n: int)
    requires IsD32(x) && IsD32(x.(expo := x.expo + n))
    ensures ScalbnBid(EncodeBid(x), IntWord(n)) == EncodeBid(x.(expo := x.expo + n))
    ensures ScalbnDpd(EncodeDpd(x), IntWord(n)) == EncodeDpd(x.(expo := x.expo + n))
  {
    hide Bits32, ScalbnBid, ScalbnDpd, AssembleBid, AssembleDpd, FitsBid, IsBcd7, Val, IsBcd, BcdOf, IntWord, Plus;
    var y := x.(expo := x.expo + n);
    FieldsFit(x);
    FieldsFit(y);
    BcdWord(x.coef);
    PlusInt(x.expo + BIAS, n);
    ScalbnWords(Bits32(x.coef), Bits32(BcdOf(x.coef)), Bits32(x.expo + BIAS), Bits32(y.expo + BIAS),
      SignWord(x.neg), IntWord(n));
  }

  lemma ScalbnWords(m: bv32, b: bv32, ex: bv32, ey: bv32, s: bv32, n: bv32)
    requires FitsBid(m) && IsBcd7(b) && ex < 192 && ey < 192 && Plus(ex, n) == ey
    ensures ScalbnBid(AssembleBid(m, ex, s), n) == AssembleBid(m, ey, s)
    ensures ScalbnDpd(AssembleDpd(b, ex, s), n) == AssembleDpd(b, ey, s)
  {
    hide ScalbnBid, ScalbnDpd, AssembleBid, AssembleDpd, FitsBid, IsBcd7;
    ScalbnBidMoves(m, ex, s, n);
    ScalbnDpdMoves(b, ex, s, n);
  }
}
