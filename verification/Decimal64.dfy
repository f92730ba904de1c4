/** The two bit layouts of a 64-bit decimal, section 3.5.2 of IEEE 754-2008:
    binary (BID) and densely packed (DPD) coefficients. */
module Decimal64 {
  import opened Declet

  const BIAS: int := 398
  /** Biased exponents below this one belong to finite numbers. */
  const EXPONENTS: int := 768

  function Nat(w: bv64): nat {
    w as nat
  }

  /** A biased exponent of a finite number. */
  predicate IsExpo(ex: bv64) {
    ex < 768
  }

  function SignBit(b: bv64): int {
    if b & 0x8000_0000_0000_0000 != 0 then -1 else 0
  }

  predicate Odd(s: bv64) {
    s & 1 == 1
  }

  // ----- binary coefficients -----

  predicate IsLargeForm(b: bv64) {
    b & 0x6000_0000_0000_0000 == 0x6000_0000_0000_0000
  }

  predicate IsLarge(m: bv64) {
    m & (1 << 53) != 0
  }

  function MantBid(b: bv64): bv64 {
    if IsLargeForm(b) then (0x4 << 51) ^ (b & 0x7_ffff_ffff_ffff) else b & 0x1f_ffff_ffff_ffff
  }

  /** The exponent field, still biased. */
  function ExpoBid(b: bv64): bv64 {
    if IsLargeForm(b) then (b >> 51) & 0x3ff else (b >> 53) & 0x3ff
  }

  function QuantExpBid(b: bv64): int {
    if b == 0 then 0 else Nat(ExpoBid(b)) - BIAS
  }

  function AssembleBid(m: bv64, ex: bv64, s: bv64): bv64 {
    if IsLarge(m) then LargeBid(m, ex, s) else SmallBid(m, ex, s)
  }

  function LargeBid(m: bv64, ex: bv64, s: bv64): bv64 {
    (s << 63) ^ (0x3 << 61) ^ (ex << 51) ^ (m & 0x7_ffff_ffff_ffff)
  }

  function SmallBid(m: bv64, ex: bv64, s: bv64): bv64 {
    (s << 63) ^ (ex << 53) ^ (m & 0x1f_ffff_ffff_ffff)
  }

  /** Coefficients that fit one of the two forms: 53 bits, or 100 and 51 bits. */
  predicate FitsBid(m: bv64) {
    m < 0x28_0000_0000_0000
  }

  lemma BidMant(m: bv64, ex: bv64, s: bv64)
    requires FitsBid(m) && IsExpo(ex)
    ensures MantBid(AssembleBid(m, ex, s)) == m
  {
    if IsLarge(m) {
      BidMantLarge(m, ex, s);
    } else {
      BidMantSmall(m, ex, s);
    }
  }

  lemma BidMantLarge(m: bv64, ex: bv64, s: bv64)
    requires FitsBid(m) && IsExpo(ex) && IsLarge(m)
    ensures MantBid(LargeBid(m, ex, s)) == m
  {
  }

  lemma BidMantSmall(m: bv64, ex: bv64, s: bv64)
    requires FitsBid(m) && IsExpo(ex) && !IsLarge(m)
    ensures MantBid(SmallBid(m, ex, s)) == m
  {
  }

  lemma BidExpo(m: bv64, ex: bv64, s: bv64)
    requires FitsBid(m) && IsExpo(ex)
    ensures ExpoBid(AssembleBid(m, ex, s)) == ex
  {
    if IsLarge(m) {
      BidExpoLarge(m, ex, s);
    } else {
      BidExpoSmall(m, ex, s);
    }
  }

  lemma BidExpoLarge(m: bv64, ex: bv64, s: bv64)
    requires FitsBid(m) && IsExpo(ex) && IsLarge(m)
    ensures ExpoBid(LargeBid(m, ex, s)) == ex
  {
  }

  lemma BidExpoSmall(m: bv64, ex: bv64, s: bv64)
    requires FitsBid(m) && IsExpo(ex) && !IsLarge(m)
    ensures ExpoBid(SmallBid(m, ex, s)) == ex
  {
  }

  lemma BidSign(m: bv64, ex: bv64, s: bv64)
    requires FitsBid(m) && IsExpo(ex)
    ensures SignBit(AssembleBid(m, ex, s)) == if Odd(s) then -1 else 0
  {
  }

  lemma BidZero(m: bv64, ex: bv64, s: bv64)
    requires FitsBid(m) && IsExpo(ex)
    ensures AssembleBid(m, ex, s) == 0 <==> m == 0 && ex == 0 && !Odd(s)
  {
    if IsLarge(m) {
      LargeNotZero(m, ex, s);
    } else {
      SmallZero(m, ex, s);
    }
  }

  lemma LargeNotZero(m: bv64, ex: bv64, s: bv64)
    requires FitsBid(m) && IsExpo(ex) && IsLarge(m)
    ensures LargeBid(m, ex, s) != 0 && m != 0
  {
  }

  lemma SmallZero(m: bv64, ex: bv64, s: bv64)
    requires FitsBid(m) && IsExpo(ex) && !IsLarge(m)
    ensures SmallBid(m, ex, s) == 0 <==> m == 0 && ex == 0 && !Odd(s)
  {
  }

  /** Where the fields are: a sign, ten bits of exponent, 53 of coefficient; or a
      sign, two bits set, the exponent and the 51 bits behind a leading 100. */
  predicate SmallFields(w: bv64, m: bv64, ex: bv64, s: bv64) {
    w >> 63 == s && (w >> 53) & 0x3ff == ex && w & 0x1f_ffff_ffff_ffff == m
  }

  predicate LargeFields(w: bv64, m: bv64, ex: bv64, s: bv64) {
    && w >> 63 == s && (w >> 61) & 0x3 == 0x3
    && (w >> 51) & 0x3ff == ex && w & 0x7_ffff_ffff_ffff == m - 0x20_0000_0000_0000
  }

  lemma BidBits(m: bv64, ex: bv64, s: bv64)
    requires FitsBid(m) && IsExpo(ex) && s < 2
    ensures m < 0x20_0000_0000_0000 ==> SmallFields(AssembleBid(m, ex, s), m, ex, s)
    ensures m >= 0x20_0000_0000_0000 ==> LargeFields(AssembleBid(m, ex, s), m, ex, s)
  {
    hide SmallBid, LargeBid, IsLarge, SmallFields, LargeFields;
    LargeFrom(m);
    if m < 0x20_0000_0000_0000 {
      SmallBits(m, ex, s);
    } else {
      LargeBits(m, ex, s);
    }
  }

  lemma LargeFrom(m: bv64)
    requires FitsBid(m)
    ensures IsLarge(m) <==> m >= 0x20_0000_0000_0000
  {
  }

  lemma SmallBits(m: bv64, ex: bv64, s: bv64)
    requires m < 0x20_0000_0000_0000 && IsExpo(ex) && s < 2
    ensures SmallFields(SmallBid(m, ex, s), m, ex, s)
  {
  }

  lemma LargeBits(m: bv64, ex: bv64, s: bv64)
    requires FitsBid(m) && m >= 0x20_0000_0000_0000 && IsExpo(ex) && s < 2
    ensures LargeFields(LargeBid(m, ex, s), m, ex, s)
  {
  }

  // ----- densely packed coefficients -----

  function MantDpd(b: bv64): bv64 {
    if HasLargeTop(b) then WithLead(LowBits(b), LargeLead(b)) else WithLead(LowBits(b), SmallLead(b))
  }

  function LowBits(b: bv64): bv64 {
    b & 0x3_ffff_ffff_ffff
  }

  predicate HasLargeTop(b: bv64) {
    (b >> 58) & 0x18 == 0x18
  }

  function LargeLead(b: bv64): bv64 {
    ((b >> 58) & 0x1) | 0x8
  }

  function SmallLead(b: bv64): bv64 {
    (b >> 58) & 0x7
  }

  function WithLead(d: bv64, top: bv64): bv64 {
    d ^ (top << 50)
  }

  /** Declet k of a packed coefficient, counted from the low end. */
  function DecletAt(m: bv64, k: bv6): bv32
    requires k < 5
  {
    ((m >> (10 * k)) & 0x3ff) as bv32
  }

  function Lead(m: bv64): bv64 {
    m >> 50
  }

  function Append(b: bv64, d: bv32): bv64 {
    (b << 12) ^ (d as bv64)
  }

  /** The five declets behind whatever stands in front. */
  function UnpackBehind(lead: bv64, m: bv64): bv64 {
    Append(Append(Append(Append(Append(lead,
      Unpack(DecletAt(m, 4))), Unpack(DecletAt(m, 3))), Unpack(DecletAt(m, 2))),
      Unpack(DecletAt(m, 1))), Unpack(DecletAt(m, 0)))
  }

  /** As the printer unpacks a coefficient. */
  function UnpackMant(m: bv64): bv64 {
    UnpackBehind(Lead(m), m)
  }

  function Misplaced(m: bv64, d: bv32): bv64 {
    ((m & 0x3c_0000_0000_0000) >> 8) ^ (d as bv64)
  }

  /** As quantising unpacks it: the leading digit is put where the shifts push it
      out of the word. */
  function UnpackMisplaced(m: bv64): bv64 {
    Append(Append(Append(Append(Misplaced(m, Unpack(DecletAt(m, 4))),
      Unpack(DecletAt(m, 3))), Unpack(DecletAt(m, 2))), Unpack(DecletAt(m, 1))), Unpack(DecletAt(m, 0)))
  }

  /** Three digits of a BCD word, counted from the low end. */
  function Three(m: bv64, k: bv6): bv32
    requires k < 5
  {
    ((m >> (12 * k)) & 0xfff) as bv32
  }

  function Top(m: bv64): bv64 {
    m >> 60
  }

  function ExpoDpd(b: bv64): bv64 {
    var t := b >> 50;
    if t & 0x1800 != 0x1800 then ((t & 0x1800) >> 3) | (t & 0xff) else ((t & 0x300) >> 1) | (t & 0xff)
  }

  function QuantExpDpd(b: bv64): int {
    if b >> 50 == 0 then 0 else Nat(ExpoDpd(b)) - BIAS
  }

  /** The word with five declets, a leading digit, a biased exponent and a sign. */
  function AssembleDeclets(d: bv64, top: bv64, rex: bv64, s: bv64): bv64 {
    if top >= 8 then LargeDpd(d, top, rex, s) else SmallDpd(d, top, rex, s)
  }

  function LargeDpd(d: bv64, top: bv64, rex: bv64, s: bv64): bv64 {
    Fields(s, d, LargeExpo(rex), top)
  }

  function SmallDpd(d: bv64, top: bv64, rex: bv64, s: bv64): bv64 {
    Fields(s, d, SmallSpread(rex), top)
  }

  /** The two high bits of an exponent stand apart from the others. */
  function LargeSpread(rex: bv64): bv64 {
    ((rex & 0x300) << 1) ^ (rex & 0xff)
  }

  function LargeExpo(rex: bv64): bv64 {
    LargeSpread(rex) ^ 0x1800
  }

  function SmallSpread(rex: bv64): bv64 {
    ((rex & 0x300) << 3) ^ (rex & 0xff)
  }

  function Fields(s: bv64, d: bv64, e: bv64, top: bv64): bv64 {
    (s << 63) ^ d ^ (e << 50) ^ ((top & 0x7) << 58)
  }

  function FiveDeclets(d0: bv32, d1: bv32, d2: bv32, d3: bv32, d4: bv32): bv64 {
    (d0 as bv64) ^ (d1 as bv64 << 10) ^ (d2 as bv64 << 20) ^ (d3 as bv64 << 30) ^ (d4 as bv64 << 40)
  }

  function Packed(m: bv64): bv64 {
    FiveDeclets(Pack(Three(m, 0)), Pack(Three(m, 1)), Pack(Three(m, 2)), Pack(Three(m, 3)), Pack(Three(m, 4)))
  }

  function AssembleDpd(m: bv64, rex: bv64, s: bv64): bv64 {
    AssembleDeclets(Packed(m), Top(m), rex, s)
  }

  predicate AreFields(d: bv64, top: bv64, rex: bv64) {
    d < 0x4_0000_0000_0000 && top <= 9 && IsExpo(rex)
  }

  lemma DecletsMant(d: bv64, top: bv64, rex: bv64, s: bv64)
    requires AreFields(d, top, rex)
    ensures MantDpd(AssembleDeclets(d, top, rex, s)) == WithLead(d, top)
  {
    hide HasLargeTop, LowBits, LargeLead, SmallLead, WithLead, LargeDpd, SmallDpd, AreFields;
    if top >= 8 {
      LargeDpdTop(d, top, rex, s);
      LargeDpdLow(d, top, rex, s);
    } else {
      SmallDpdTop(d, top, rex, s);
      SmallDpdLow(d, top, rex, s);
    }
  }

  lemma LargeDpdTop(d: bv64, top: bv64, rex: bv64, s: bv64)
    requires AreFields(d, top, rex) && top >= 8
    ensures HasLargeTop(LargeDpd(d, top, rex, s)) && LargeLead(LargeDpd(d, top, rex, s)) == top
  {
  }

  lemma SmallDpdTop(d: bv64, top: bv64, rex: bv64, s: bv64)
    requires AreFields(d, top, rex) && top < 8
    ensures !HasLargeTop(SmallDpd(d, top, rex, s)) && SmallLead(SmallDpd(d, top, rex, s)) == top
  {
  }

  lemma LargeDpdLow(d: bv64, top: bv64, rex: bv64, s: bv64)
    requires AreFields(d, top, rex)
    ensures LowBits(LargeDpd(d, top, rex, s)) == d
  {
  }

  lemma SmallDpdLow(d: bv64, top: bv64, rex: bv64, s: bv64)
    requires AreFields(d, top, rex)
    ensures LowBits(SmallDpd(d, top, rex, s)) == d
  {
  }

  /** The exponents that can be read back: of a coefficient with a leading digit of
      8 or 9, only those below 512, and with a 9 only those whose eighth bit is set
      already. */
  predicate ExpoReadable(top: bv64, rex: bv64) {
    top >= 8 ==> rex < 512 && (top == 9 ==> rex & 0x80 != 0)
  }

  lemma DecletsExpo(d: bv64, top: bv64, rex: bv64, s: bv64)
    requires AreFields(d, top, rex)
    ensures ExpoDpd(AssembleDeclets(d, top, rex, s)) == rex <==> ExpoReadable(top, rex)
  {
  }

  lemma DecletsSign(d: bv64, top: bv64, rex: bv64, s: bv64)
    requires AreFields(d, top, rex)
    ensures SignBit(AssembleDeclets(d, top, rex, s)) == if Odd(s) then -1 else 0
  {
  }

  lemma DecletsZero(d: bv64, top: bv64, rex: bv64, s: bv64)
    requires AreFields(d, top, rex)
    ensures AssembleDeclets(d, top, rex, s) >> 50 == 0 <==> top == 0 && rex == 0 && !Odd(s)
  {
  }

  /** Where the fields are: a sign, five bits that combine the exponent's two highest
      with the leading digit, eight bits of exponent, five declets. */
  predicate PackedFields(w: bv64, d: bv64, top: bv64, ex: bv64, s: bv64) {
    && w >> 63 == s && (w >> 50) & 0xff == ex & 0xff && w & 0x3_ffff_ffff_ffff == d
    && (w >> 58) & 0x1f == if top < 8 then 8 * (ex >> 8) + top else 0x18 + 2 * (ex >> 8) + (top - 8)
  }

  lemma DpdBits(d: bv64, top: bv64, ex: bv64, s: bv64)
    requires AreFields(d, top, ex) && s < 2
    ensures PackedFields(AssembleDeclets(d, top, ex, s), d, top, ex, s)
  {
    hide SmallDpd, LargeDpd, PackedFields;
    if top < 8 {
      SmallDpdBits(d, top, ex, s);
    } else {
      LargeDpdBits(d, top, ex, s);
    }
  }

  lemma SmallDpdBits(d: bv64, top: bv64, ex: bv64, s: bv64)
    requires AreFields(d, top, ex) && s < 2 && top < 8
    ensures PackedFields(SmallDpd(d, top, ex, s), d, top, ex, s)
  {
  }

  lemma LargeDpdBits(d: bv64, top: bv64, ex: bv64, s: bv64)
    requires AreFields(d, top, ex) && s < 2 && top >= 8
    ensures PackedFields(LargeDpd(d, top, ex, s), d, top, ex, s)
  {
  }

  lemma DecletBits(d0: bv32, d1: bv32, d2: bv32, d3: bv32, d4: bv32)
    requires d0 < 0x400 && d1 < 0x400 && d2 < 0x400 && d3 < 0x400 && d4 < 0x400
    ensures var d := FiveDeclets(d0, d1, d2, d3, d4);
      && (d & 0x3ff) as bv32 == d0 && ((d >> 10) & 0x3ff) as bv32 == d1 && ((d >> 20) & 0x3ff) as bv32 == d2
      && ((d >> 30) & 0x3ff) as bv32 == d3 && ((d >> 40) & 0x3ff) as bv32 == d4
  {
  }

  /** Sixteen BCD digits. */
  predicate IsBcd16(m: bv64) {
    && IsBcd3(Three(m, 0)) && IsBcd3(Three(m, 1)) && IsBcd3(Three(m, 2)) && IsBcd3(Three(m, 3))
    && IsBcd3(Three(m, 4)) && Top(m) <= 9
  }

  lemma FiveFit(d0: bv32, d1: bv32, d2: bv32, d3: bv32, d4: bv32)
    requires d0 < 0x400 && d1 < 0x400 && d2 < 0x400 && d3 < 0x400 && d4 < 0x400
    ensures FiveDeclets(d0, d1, d2, d3, d4) < 0x4_0000_0000_0000
  {
  }

  lemma FiveAt(d0: bv32, d1: bv32, d2: bv32, d3: bv32, d4: bv32, top: bv64)
    requires d0 < 0x400 && d1 < 0x400 && d2 < 0x400 && d3 < 0x400 && d4 < 0x400 && top <= 9
    ensures var m := WithLead(FiveDeclets(d0, d1, d2, d3, d4), top);
      && DecletAt(m, 0) == d0 && DecletAt(m, 1) == d1 && DecletAt(m, 2) == d2 && DecletAt(m, 3) == d3
      && DecletAt(m, 4) == d4 && Lead(m) == top
  {
  }

  lemma PackedFit(m: bv64)
    requires IsBcd16(m)
    ensures Pack(Three(m, 0)) < 0x400 && Pack(Three(m, 1)) < 0x400 && Pack(Three(m, 2)) < 0x400
    ensures Pack(Three(m, 3)) < 0x400 && Pack(Three(m, 4)) < 0x400 && Packed(m) < 0x4_0000_0000_0000
    ensures Top(m) <= 9
  {
    hide Pack, FiveDeclets, IsBcd3, Three;
    PackIsCanonical(Three(m, 0));
    PackIsCanonical(Three(m, 1));
    PackIsCanonical(Three(m, 2));
    PackIsCanonical(Three(m, 3));
    PackIsCanonical(Three(m, 4));
    FiveFit(Pack(Three(m, 0)), Pack(Three(m, 1)), Pack(Three(m, 2)), Pack(Three(m, 3)), Pack(Three(m, 4)));
  }

  lemma Threes(m: bv64)
    ensures Append(Append(Append(Append(Append(Top(m), Three(m, 4)), Three(m, 3)), Three(m, 2)), Three(m, 1)),
      Three(m, 0)) == m
  {
  }

  /** Packing and unpacking a sixteen-digit BCD coefficient. */
  lemma DpdMant(m: bv64, ex: bv64, s: bv64)
    requires IsBcd16(m) && IsExpo(ex)
    ensures UnpackMant(MantDpd(AssembleDpd(m, ex, s))) == m
  {
    hide Pack, IsBcd16, AssembleDeclets, MantDpd, UnpackMant, Three, Top, FiveDeclets, WithLead;
    PackedFit(m);
    DecletsMant(Packed(m), Top(m), ex, s);
    FiveAt(Pack(Three(m, 0)), Pack(Three(m, 1)), Pack(Three(m, 2)), Pack(Three(m, 3)), Pack(Three(m, 4)), Top(m));
    Unpacked(MantDpd(AssembleDpd(m, ex, s)), m);
  }

  lemma Unpacked(c: bv64, m: bv64)
    requires IsBcd16(m) && Lead(c) == Top(m)
    requires DecletAt(c, 0) == Pack(Three(m, 0)) && DecletAt(c, 1) == Pack(Three(m, 1))
    requires DecletAt(c, 2) == Pack(Three(m, 2)) && DecletAt(c, 3) == Pack(Three(m, 3))
    requires DecletAt(c, 4) == Pack(Three(m, 4))
    ensures UnpackMant(c) == m
  {
    hide Pack, Unpack, IsBcd3, DecletAt, Lead, Append, Three, Top;
    UnpackPack(Three(m, 0));
    UnpackPack(Three(m, 1));
    UnpackPack(Three(m, 2));
    UnpackPack(Three(m, 3));
    UnpackPack(Three(m, 4));
    Threes(m);
  }

  lemma DpdFields(m: bv64, ex: bv64)
    requires IsBcd16(m) && IsExpo(ex)
    ensures AreFields(Packed(m), Top(m), ex)
  {
    hide Packed, Pack, Three, Top, IsBcd16;
    PackedFit(m);
  }

  lemma DpdExpo(m: bv64, ex: bv64, s: bv64)
    requires IsBcd16(m) && IsExpo(ex)
    ensures ExpoDpd(AssembleDpd(m, ex, s)) == ex <==> ExpoReadable(Top(m), ex)
  {
    hide Packed, AssembleDeclets, ExpoDpd, ExpoReadable, Top, IsBcd16, AreFields;
    DpdFields(m, ex);
    DecletsExpo(Packed(m), Top(m), ex, s);
  }

  lemma DpdSign(m: bv64, ex: bv64, s: bv64)
    requires IsBcd16(m) && IsExpo(ex)
    ensures SignBit(AssembleDpd(m, ex, s)) == if Odd(s) then -1 else 0
  {
    hide Packed, AssembleDeclets, Top, IsBcd16, AreFields, SignBit;
    DpdFields(m, ex);
    DecletsSign(Packed(m), Top(m), ex, s);
  }

  lemma DpdZero(m: bv64, ex: bv64, s: bv64)
    requires IsBcd16(m) && IsExpo(ex)
    ensures AssembleDpd(m, ex, s) >> 50 == 0 <==> Top(m) == 0 && ex == 0 && !Odd(s)
  {
    hide Packed, AssembleDeclets, Top, IsBcd16, AreFields;
    DpdFields(m, ex);
    DecletsZero(Packed(m), Top(m), ex, s);
  }

  /** The misplaced leading digit is lost, and it alone. */
  lemma LeadLost(m: bv64)
    ensures UnpackMisplaced(m) == UnpackBehind(0, m)
  {
    hide Unpack, DecletAt, Append, Misplaced;
    ShiftedOut(m, Unpack(DecletAt(m, 4)), Unpack(DecletAt(m, 3)), Unpack(DecletAt(m, 2)), Unpack(DecletAt(m, 1)),
      Unpack(DecletAt(m, 0)));
  }

  lemma ShiftedOut(m: bv64, u4: bv32, u3: bv32, u2: bv32, u1: bv32, u0: bv32)
    ensures Append(Append(Append(Append(Misplaced(m, u4), u3), u2), u1), u0)
      == Append(Append(Append(Append(Append(0, u4), u3), u2), u1), u0)
  {
  }

  // ----- moving the exponent -----

  /** The exponent field is xored with itself and with the moved exponent. */
  function ScalbnBid(b: bv64, n: bv64): bv64 {
    var u := ExpoBid(b);
    MoveBid(b, (u ^ (u + n)) & 0x3ff)
  }

  function MoveBid(b: bv64, u: bv64): bv64 {
    if IsLargeForm(b) then XorAt51(b, u) else XorAt53(b, u)
  }

  function XorAt50(b: bv64, u: bv64): bv64 {
    b ^ (u << 50)
  }

  function XorAt51(b: bv64, u: bv64): bv64 {
    b ^ (u << 51)
  }

  function XorAt53(b: bv64, u: bv64): bv64 {
    b ^ (u << 53)
  }

  function ScalbnDpd(b: bv64, n: bv64): bv64 {
    if IsLargeForm(b) then
      var u := LargeField(b);
      MoveLarge(b, Flipped(u, Sum(u, n)))
    else
      var u := SmallField(b);
      MoveSmall(b, Flipped(u, Sum(u, n)))
  }

  /** The bits in which two exponents differ. */
  function Flipped(ex: bv64, e: bv64): bv64 {
    ex ^ e
  }

  function Sum(u: bv64, n: bv64): bv64 {
    u + n
  }

  function LargeField(b: bv64): bv64 {
    ((b >> 50) & 0xff) ^ ((b >> 51) & 0x300)
  }

  function SmallField(b: bv64): bv64 {
    ((b >> 50) & 0xff) ^ ((b >> 53) & 0x300)
  }

  function MoveLarge(b: bv64, x: bv64): bv64 {
    XorAt50(b, LargeSpread(x))
  }

  function MoveSmall(b: bv64, x: bv64): bv64 {
    XorAt50(b, SmallSpread(x))
  }

  /** Scaling by 10^n is the same as assembling with the moved exponent: nothing
      but the exponent changes, and it changes by n. */
  lemma ScalbnBidMoves(m: bv64, ex: bv64, s: bv64, n: bv64)
    requires FitsBid(m) && IsExpo(ex) && IsExpo(ex + n)
    ensures ScalbnBid(AssembleBid(m, ex, s), n) == AssembleBid(m, ex + n, s)
  {
    hide AssembleBid, MoveBid, ExpoBid, FitsBid;
    BidExpo(m, ex, s);
    FieldXor(ex, ex + n);
    BidMoved(m, ex, ex + n, s);
  }

  lemma FieldXor(x: bv64, y: bv64)
    requires IsExpo(x) && IsExpo(y)
    ensures (x ^ y) & 0x3ff == x ^ y
  {
  }

  lemma BidForm(m: bv64, ex: bv64, s: bv64)
    requires FitsBid(m) && IsExpo(ex)
    ensures IsLarge(m) ==> IsLargeForm(LargeBid(m, ex, s))
    ensures !IsLarge(m) ==> !IsLargeForm(SmallBid(m, ex, s))
  {
  }

  lemma LargeMoved(m: bv64, ex: bv64, e: bv64, s: bv64)
    ensures XorAt51(LargeBid(m, ex, s), ex ^ e) == LargeBid(m, e, s)
  {
    calc {
      XorAt51(LargeBid(m, ex, s), ex ^ e);
      ((s << 63) ^ (0x3 << 61) ^ (ex << 51) ^ (m & 0x7_ffff_ffff_ffff)) ^ ((ex ^ e) << 51);
      (s << 63) ^ (0x3 << 61) ^ (e << 51) ^ (m & 0x7_ffff_ffff_ffff);
      LargeBid(m, e, s);
    }
  }

  lemma SmallMoved(m: bv64, ex: bv64, e: bv64, s: bv64)
    ensures XorAt53(SmallBid(m, ex, s), ex ^ e) == SmallBid(m, e, s)
  {
    calc {
      XorAt53(SmallBid(m, ex, s), ex ^ e);
      ((s << 63) ^ (ex << 53) ^ (m & 0x1f_ffff_ffff_ffff)) ^ ((ex ^ e) << 53);
      (s << 63) ^ (e << 53) ^ (m & 0x1f_ffff_ffff_ffff);
      SmallBid(m, e, s);
    }
  }

  lemma BidMoved(m: bv64, ex: bv64, e: bv64, s: bv64)
    requires FitsBid(m) && IsExpo(ex) && IsExpo(e)
    ensures MoveBid(AssembleBid(m, ex, s), ex ^ e) == AssembleBid(m, e, s)
  {
    hide LargeBid, SmallBid, FitsBid, IsLarge, IsLargeForm, XorAt51, XorAt53;
    BidForm(m, ex, s);
    LargeMoved(m, ex, e, s);
    SmallMoved(m, ex, e, s);
  }

  /** The packed layout moves the exponent correctly for every leading digit, also
      where reading it back does not. */
  lemma ScalbnDpdMoves(m: bv64, ex: bv64, s: bv64, n: bv64)
    requires IsBcd16(m) && IsExpo(ex) && IsExpo(ex + n)
    ensures ScalbnDpd(AssembleDpd(m, ex, s), n) == AssembleDpd(m, ex + n, s)
  {
    hide Packed, AssembleDeclets, ScalbnDpd, Pack;
    PackedFit(m);
    DecletsMoved(Packed(m), Top(m), ex, ex + n, s, n);
  }

  lemma DecletsMoved(d: bv64, top: bv64, ex: bv64, e: bv64, s: bv64, n: bv64)
    requires AreFields(d, top, ex) && Sum(ex, n) == e
    ensures ScalbnDpd(AssembleDeclets(d, top, ex, s), n) == AssembleDeclets(d, top, e, s)
  {
    hide LargeDpd, SmallDpd, IsLargeForm, LargeField, SmallField, MoveLarge, MoveSmall, AreFields, Flipped, Sum;
    if top >= 8 {
      LargeDpdField(d, top, ex, s);
      LargeDpdMoved(d, top, ex, e, s);
    } else {
      SmallDpdField(d, top, ex, s);
      SmallDpdMoved(d, top, ex, e, s);
    }
  }

  lemma LargeDpdField(d: bv64, top: bv64, ex: bv64, s: bv64)
    requires AreFields(d, top, ex) && top >= 8
    ensures IsLargeForm(LargeDpd(d, top, ex, s)) && LargeField(LargeDpd(d, top, ex, s)) == ex
  {
  }

  lemma SmallDpdField(d: bv64, top: bv64, ex: bv64, s: bv64)
    requires AreFields(d, top, ex) && top < 8
    ensures !IsLargeForm(SmallDpd(d, top, ex, s)) && SmallField(SmallDpd(d, top, ex, s)) == ex
  {
  }

  lemma FieldsXor(s: bv64, d: bv64, e: bv64, top: bv64, x: bv64)
    ensures XorAt50(Fields(s, d, e, top), x) == Fields(s, d, Flipped(e, x), top)
  {
    calc {
      XorAt50(Fields(s, d, e, top), x);
      ((s << 63) ^ d ^ (e << 50) ^ ((top & 0x7) << 58)) ^ (x << 50);
      (s << 63) ^ d ^ ((e ^ x) << 50) ^ ((top & 0x7) << 58);
      Fields(s, d, Flipped(e, x), top);
    }
  }

  lemma SpreadXor(ex: bv64, e: bv64)
    ensures Flipped(LargeExpo(ex), LargeSpread(Flipped(ex, e))) == LargeExpo(e)
    ensures Flipped(SmallSpread(ex), SmallSpread(Flipped(ex, e))) == SmallSpread(e)
  {
  }

  lemma LargeDpdMoved(d: bv64, top: bv64, ex: bv64, e: bv64, s: bv64)
    ensures MoveLarge(LargeDpd(d, top, ex, s), Flipped(ex, e)) == LargeDpd(d, top, e, s)
  {
    hide Fields, LargeSpread, LargeExpo, XorAt50, Flipped;
    SpreadXor(ex, e);
    FieldsXor(s, d, LargeExpo(ex), top, LargeSpread(Flipped(ex, e)));
  }

  lemma SmallDpdMoved(d: bv64, top: bv64, ex: bv64, e: bv64, s: bv64)
    ensures MoveSmall(SmallDpd(d, top, ex, s), Flipped(ex, e)) == SmallDpd(d, top, e, s)
  {
    hide Fields, SmallSpread, XorAt50, Flipped;
    SpreadXor(ex, e);
    FieldsXor(s, d, SmallSpread(ex), top, SmallSpread(Flipped(ex, e)));
  }
}
