/** The two bit layouts of a 32-bit decimal, section 3.5.2 of IEEE 754-2008:
    binary (BID) and densely packed (DPD) coefficients. */
module Decimal32 {
  import opened Declet

  const BIAS: int := 101
  /** Biased exponents below this one belong to finite numbers. */
  const EXPONENTS: int := 192

  function SignBit(b: bv32): int {
    if b & 0x8000_0000 != 0 then -1 else 0
  }

  // ----- binary coefficients -----

  /** The bits after the sign announce the form with the leading 100. */
  predicate IsLargeForm(b: bv32) {
    b & 0x6000_0000 == 0x6000_0000
  }

  predicate IsLarge(m: bv32) {
    m & (1 << 23) != 0
  }

  function MantBid(b: bv32): bv32 {
    if IsLargeForm(b) then (0x4 << 21) ^ (b & 0x1f_ffff) else b & 0x7f_ffff
  }

  /** The exponent field, still biased. */
  function ExpoBid(b: bv32): bv32 {
    if IsLargeForm(b) then (b >> 21) & 0xff else (b >> 23) & 0xff
  }

  function QuantExpBid(b: bv32): int {
    if b == 0 then 0 else ExpoBid(b) as int - BIAS
  }

  function AssembleBid(m: bv32, ex: bv32, s: bv32): bv32 {
    if IsLarge(m) then LargeBid(m, ex, s) else SmallBid(m, ex, s)
  }

  function LargeBid(m: bv32, ex: bv32, s: bv32): bv32 {
    (s << 31) ^ (0x3 << 29) ^ (ex << 21) ^ (m & 0x1f_ffff)
  }

  function SmallBid(m: bv32, ex: bv32, s: bv32): bv32 {
    (s << 31) ^ (ex << 23) ^ (m & 0x7f_ffff)
  }

  /** Coefficients that fit one of the two forms: 23 bits, or 100 and 21 bits. */
  predicate FitsBid(m: bv32) {
    m < 0xa0_0000
  }

  lemma BidMant(m: bv32, ex: bv32, s: bv32)
    requires FitsBid(m) && ex < 192
    ensures MantBid(AssembleBid(m, ex, s)) == m
  {
    if IsLarge(m) {
      BidMantLarge(m, ex, s);
    } else {
      BidMantSmall(m, ex, s);
    }
  }

  lemma BidMantLarge(m: bv32, ex: bv32, s: bv32)
    requires FitsBid(m) && ex < 192 && IsLarge(m)
    ensures MantBid(LargeBid(m, ex, s)) == m
  {
  }

  lemma BidMantSmall(m: bv32, ex: bv32, s: bv32)
    requires FitsBid(m) && ex < 192 && !IsLarge(m)
    ensures MantBid(SmallBid(m, ex, s)) == m
  {
  }

  lemma BidExpo(m: bv32, ex: bv32, s: bv32)
    requires FitsBid(m) && ex < 192
    ensures ExpoBid(AssembleBid(m, ex, s)) == ex
  {
  }

  lemma BidSign(m: bv32, ex: bv32, s: bv32)
    requires FitsBid(m) && ex < 192
    ensures SignBit(AssembleBid(m, ex, s)) == if s & 1 == 1 then -1 else 0
  {
  }

  lemma BidZero(m: bv32, ex: bv32, s: bv32)
    requires FitsBid(m) && ex < 192
    ensures AssembleBid(m, ex, s) == 0 <==> m == 0 && ex == 0 && s & 1 == 0
  {
  }

  /** Where the fields are: a sign, eight bits of exponent, 23 of coefficient; or a
      sign, two bits set, the exponent and the 21 bits behind a leading 100. */
  predicate SmallFields(w: bv32, m: bv32, ex: bv32, s: bv32) {
    w >> 31 == s && (w >> 23) & 0xff == ex && w & 0x7f_ffff == m
  }

  predicate LargeFields(w: bv32, m: bv32, ex: bv32, s: bv32) {
    && w >> 31 == s && (w >> 29) & 0x3 == 0x3
    && (w >> 21) & 0xff == ex && w & 0x1f_ffff == m - 0x80_0000
  }

  lemma BidBits(m: bv32, ex: bv32, s: bv32)
    requires FitsBid(m) && ex < 192 && s < 2
    ensures m < 0x80_0000 ==> SmallFields(AssembleBid(m, ex, s), m, ex, s)
    ensures m >= 0x80_0000 ==> LargeFields(AssembleBid(m, ex, s), m, ex, s)
  {
    hide SmallBid, LargeBid, IsLarge, SmallFields, LargeFields;
    LargeFrom(m);
    if m < 0x80_0000 {
      SmallBits(m, ex, s);
    } else {
      LargeBits(m, ex, s);
    }
  }

  lemma LargeFrom(m: bv32)
    requires FitsBid(m)
    ensures IsLarge(m) <==> m >= 0x80_0000
  {
  }

  lemma SmallBits(m: bv32, ex: bv32, s: bv32)
    requires m < 0x80_0000 && ex < 192 && s < 2
    ensures SmallFields(SmallBid(m, ex, s), m, ex, s)
  {
  }

  lemma LargeBits(m: bv32, ex: bv32, s: bv32)
    requires FitsBid(m) && m >= 0x80_0000 && ex < 192 && s < 2
    ensures LargeFields(LargeBid(m, ex, s), m, ex, s)
  {
  }

  // ----- densely packed coefficients -----

  function MantDpd(b: bv32): bv32 {
    var res := b & 0xf_ffff;
    var t := b >> 26;
    if t & 0x18 == 0x18 then res ^ (((t & 0x1) | 0x8) << 20) else res ^ ((t & 0x7) << 20)
  }

  function LowDeclet(m: bv32): bv32 {
    m & 0x3ff
  }

  function HighDeclet(m: bv32): bv32 {
    (m >> 10) & 0x3ff
  }

  /** The leading digit of a packed coefficient, where the BCD word wants it
      before its last shift. */
  function Lead(m: bv32): bv32 {
    (m & 0xf0_0000) >> 8
  }

  function Join(lead: bv32, mid: bv32, low: bv32): bv32 {
    ((lead | mid) << 12) | low
  }

  function UnpackMant(m: bv32): bv32 {
    Join(Lead(m), Unpack(HighDeclet(m)), Unpack(LowDeclet(m)))
  }

  // the parts of a seven-digit BCD word

  function Low3(m: bv32): bv32 {
    m & 0xfff
  }

  function Mid3(m: bv32): bv32 {
    (m >> 12) & 0xfff
  }

  function Top1(m: bv32): bv32 {
    m >> 24
  }

  function ExpoDpd(b: bv32): bv32 {
    var t := b >> 20;
    if t & 0x600 != 0x600 then ((t & 0x600) >> 3) | (t & 0x3f) else ((t & 0x180) >> 1) | (t & 0x3f)
  }

  function QuantExpDpd(b: bv32): int {
    if b >> 20 == 0 then 0 else ExpoDpd(b) as int - BIAS
  }

  /** The word with two declets, a leading digit, a biased exponent and a sign. */
  function AssembleDeclets(d0: bv32, d1: bv32, top: bv32, rex: bv32, s: bv32): bv32 {
    var e := if top >= 8 then (((rex & 0xc0) << 1) | (rex & 0x3f)) | 0x600 else ((rex & 0xc0) << 3) | (rex & 0x3f);
    (s << 31) | d0 | (d1 << 10) | (e << 20) | ((top & 0x7) << 26)
  }

  function AssembleDpd(m: bv32, rex: bv32, s: bv32): bv32 {
    AssembleDeclets(Pack(Low3(m)), Pack(Mid3(m)), Top1(m), rex, s)
  }

  predicate AreFields(d0: bv32, d1: bv32, top: bv32, rex: bv32) {
    d0 < 0x400 && d1 < 0x400 && top <= 9 && rex < 192
  }

  lemma DecletsMant(d0: bv32, d1: bv32, top: bv32, rex: bv32, s: bv32)
    requires AreFields(d0, d1, top, rex)
    ensures var m := MantDpd(AssembleDeclets(d0, d1, top, rex, s));
      LowDeclet(m) == d0 && HighDeclet(m) == d1 && Lead(m) == top << 12
  {
  }

  lemma DecletsExpo(d0: bv32, d1: bv32, top: bv32, rex: bv32, s: bv32)
    requires AreFields(d0, d1, top, rex)
    ensures ExpoDpd(AssembleDeclets(d0, d1, top, rex, s)) == rex
  {
  }

  lemma DecletsSign(d0: bv32, d1: bv32, top: bv32, rex: bv32, s: bv32)
    requires AreFields(d0, d1, top, rex)
    ensures SignBit(AssembleDeclets(d0, d1, top, rex, s)) == if s & 1 == 1 then -1 else 0
  {
  }

  lemma DecletsZero(d0: bv32, d1: bv32, top: bv32, rex: bv32, s: bv32)
    requires AreFields(d0, d1, top, rex)
    ensures AssembleDeclets(d0, d1, top, rex, s) >> 20 == 0 <==> top == 0 && rex == 0 && s & 1 == 0
  {
  }

  /** Where the fields are: a sign, five bits that combine the exponent's two highest
      with the leading digit, six bits of exponent, two declets. */
  lemma DpdBits(d0: bv32, d1: bv32, top: bv32, ex: bv32, s: bv32)
    requires AreFields(d0, d1, top, ex) && s < 2
    ensures var w := AssembleDeclets(d0, d1, top, ex, s);
      && w >> 31 == s && (w >> 20) & 0x3f == ex & 0x3f && (w >> 10) & 0x3ff == d1 && w & 0x3ff == d0
      && (w >> 26) & 0x1f == if top < 8 then 8 * (ex >> 6) + top else 0x18 + 2 * (ex >> 6) + (top - 8)
  {
  }

  /** Seven BCD digits. */
  predicate IsBcd7(m: bv32) {
    IsBcd3(Low3(m)) && IsBcd3(Mid3(m)) && Top1(m) <= 9
  }

  lemma Repacked(m: bv32)
    ensures Join(Top1(m) << 12, Mid3(m), Low3(m)) == m
  {
  }

  lemma DpdFields(m: bv32, ex: bv32, s: bv32)
    requires IsBcd7(m) && ex < 192
    ensures AreFields(Pack(Low3(m)), Pack(Mid3(m)), Top1(m), ex)
  {
    hide Pack;
    PackIsCanonical(Low3(m));
    PackIsCanonical(Mid3(m));
  }

  /** Packing and unpacking a seven-digit BCD coefficient. */
  lemma DpdMant(m: bv32, ex: bv32, s: bv32)
    requires IsBcd7(m) && ex < 192
    ensures UnpackMant(MantDpd(AssembleDpd(m, ex, s))) == m
  {
    hide Pack, Unpack, IsBcd3, AssembleDeclets, MantDpd, LowDeclet, HighDeclet, Lead, Join, Low3, Mid3, Top1;
    DpdFields(m, ex, s);
    DecletsMant(Pack(Low3(m)), Pack(Mid3(m)), Top1(m), ex, s);
    UnpackPack(Low3(m));
    UnpackPack(Mid3(m));
    Repacked(m);
  }

  lemma DpdExpo(m: bv32, ex: bv32, s: bv32)
    requires IsBcd7(m) && ex < 192
    ensures ExpoDpd(AssembleDpd(m, ex, s)) == ex
  {
    hide Pack, AssembleDeclets, ExpoDpd, IsBcd7;
    DpdFields(m, ex, s);
    DecletsExpo(Pack(Low3(m)), Pack(Mid3(m)), Top1(m), ex, s);
  }

  lemma DpdSign(m: bv32, ex: bv32, s: bv32)
    requires IsBcd7(m) && ex < 192
    ensures SignBit(AssembleDpd(m, ex, s)) == if s & 1 == 1 then -1 else 0
  {
    hide Pack, AssembleDeclets, SignBit, IsBcd7;
    DpdFields(m, ex, s);
    DecletsSign(Pack(Low3(m)), Pack(Mid3(m)), Top1(m), ex, s);
  }

  lemma DpdZero(m: bv32, ex: bv32, s: bv32)
    requires IsBcd7(m) && ex < 192
    ensures AssembleDpd(m, ex, s) >> 20 == 0 <==> Top1(m) == 0 && ex == 0 && s & 1 == 0
  {
    hide Pack, AssembleDeclets, IsBcd7;
    DpdFields(m, ex, s);
    DecletsZero(Pack(Low3(m)), Pack(Mid3(m)), Top1(m), ex, s);
  }

  // ----- moving the exponent -----

  /** The exponent field is xored with itself and with the moved exponent. */
  function ScalbnBid(b: bv32, n: bv32): bv32 {
    var u := ExpoBid(b);
    MoveBid(b, (u ^ (u + n)) & 0xff)
  }

  function MoveBid(b: bv32, u: bv32): bv32 {
    if IsLargeForm(b) then XorAt21(b, u) else XorAt23(b, u)
  }

  function XorAt21(b: bv32, u: bv32): bv32 {
    b ^ (u << 21)
  }

  function XorAt23(b: bv32, u: bv32): bv32 {
    b ^ (u << 23)
  }

  function ScalbnDpd(b: bv32, n: bv32): bv32 {
    if b & 0x6000_0000 == 0x6000_0000 then
      var u := ((b >> 20) & 0x3f) ^ ((b >> 21) & 0xc0);
      var x := u ^ (u + n);
      b ^ (((x & 0x3f) | ((x & 0xc0) << 1)) << 20)
    else
      var u := ((b >> 20) & 0x3f) ^ ((b >> 23) & 0xc0);
      var x := u ^ (u + n);
      b ^ (((x & 0x3f) | ((x & 0xc0) << 3)) << 20)
  }

  /** Scaling by 10^n is the same as assembling with the moved exponent: nothing
      but the exponent changes, and it changes by n. */
  lemma ScalbnBidMoves(m: bv32, ex: bv32, s: bv32, n: bv32)
    requires FitsBid(m) && ex < 192 && ex + n < 192
    ensures ScalbnBid(AssembleBid(m, ex, s), n) == AssembleBid(m, ex + n, s)
  {
    hide AssembleBid, MoveBid, ExpoBid, FitsBid;
    BidExpo(m, ex, s);
    ByteXor(ex, ex + n);
    BidMoved(m, ex, ex + n, s);
  }

  lemma ByteXor(x: bv32, y: bv32)
    requires x < 192 && y < 192
    ensures (x ^ y) & 0xff == x ^ y
  {
  }

  lemma BidForm(m: bv32, ex: bv32, s: bv32)
    requires FitsBid(m) && ex < 192
    ensures IsLarge(m) ==> IsLargeForm(LargeBid(m, ex, s))
    ensures !IsLarge(m) ==> !IsLargeForm(SmallBid(m, ex, s))
  {
  }

  lemma LargeMoved(m: bv32, ex: bv32, e: bv32, s: bv32)
    ensures XorAt21(LargeBid(m, ex, s), ex ^ e) == LargeBid(m, e, s)
  {
    calc {
      XorAt21(LargeBid(m, ex, s), ex ^ e);
      ((s << 31) ^ (0x3 << 29) ^ (ex << 21) ^ (m & 0x1f_ffff)) ^ ((ex ^ e) << 21);
      (s << 31) ^ (0x3 << 29) ^ (e << 21) ^ (m & 0x1f_ffff);
      LargeBid(m, e, s);
    }
  }

  lemma SmallMoved(m: bv32, ex: bv32, e: bv32, s: bv32)
    ensures XorAt23(SmallBid(m, ex, s), ex ^ e) == SmallBid(m, e, s)
  {
    calc {
      XorAt23(SmallBid(m, ex, s), ex ^ e);
      ((s << 31) ^ (ex << 23) ^ (m & 0x7f_ffff)) ^ ((ex ^ e) << 23);
      (s << 31) ^ (e << 23) ^ (m & 0x7f_ffff);
      SmallBid(m, e, s);
    }
  }

  lemma BidMoved(m: bv32, ex: bv32, e: bv32, s: bv32)
    requires FitsBid(m) && ex < 192 && e < 192
    ensures MoveBid(AssembleBid(m, ex, s), ex ^ e) == AssembleBid(m, e, s)
  {
    hide LargeBid, SmallBid, FitsBid, IsLarge, IsLargeForm, XorAt21, XorAt23;
    BidForm(m, ex, s);
    LargeMoved(m, ex, e, s);
    SmallMoved(m, ex, e, s);
  }

  lemma ScalbnDpdMoves(m: bv32, ex: bv32, s: bv32, n: bv32)
    requires IsBcd7(m) && ex < 192 && ex + n < 192
    ensures ScalbnDpd(AssembleDpd(m, ex, s), n) == AssembleDpd(m, ex + n, s)
  {
    hide Pack, AssembleDeclets, ScalbnDpd, IsBcd7;
    DpdFields(m, ex, s);
    DecletsMoved(Pack(Low3(m)), Pack(Mid3(m)), Top1(m), ex, s, n);
  }

  lemma DecletsMoved(d0: bv32, d1: bv32, top: bv32, ex: bv32, s: bv32, n: bv32)
    requires AreFields(d0, d1, top, ex) && ex + n < 192
    ensures ScalbnDpd(AssembleDeclets(d0, d1, top, ex, s), n) == AssembleDeclets(d0, d1, top, ex + n, s)
  {
  }
}
