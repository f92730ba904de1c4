/** The nibbles of 32-bit and 64-bit words, and the numbers they stand for. */
module Nibbles {
  import opened Bcd

  // ----- a word is its high part and its lowest nibble -----

  lemma FromParts(x: nat, hi: nat, lo: nat)
    requires x == 16 * hi + lo && lo < 16
    ensures hi == x / 16 && lo == x % 16
  {
  }

  function Join32(hi: bv28, lo: bv4): bv32 {
    ((hi as bv32) << 4) | lo as bv32
  }

  lemma Join32Value(hi: bv28, lo: bv4)
    ensures Join32(hi, lo) as nat == 16 * (hi as nat) + lo as nat
  {
    calc {
      Join32(hi, lo) as nat;
      (((hi as bv32) << 4) | lo as bv32) as nat;
    }
  }

  lemma Join32Parts(hi: bv28, lo: bv4)
    ensures Join32(hi, lo) >> 4 == hi as bv32 && Join32(hi, lo) & 0xf == lo as bv32
  {
  }

  lemma Join32Whole(w: bv32)
    ensures Join32((w >> 4) as bv28, (w & 0xf) as bv4) == w
  {
  }

  lemma Wide32(hi: bv28, lo: bv4)
    ensures (hi as bv32) as nat == hi as nat && (lo as bv32) as nat == lo as nat
  {
  }

  lemma Split32(w: bv32)
    ensures w as nat == 16 * ((w >> 4) as nat) + ((w & 0xf) as nat)
  {
    hide Join32;
    var hi, lo := (w >> 4) as bv28, (w & 0xf) as bv4;
    Join32Whole(w);
    Join32Parts(hi, lo);
    Join32Value(hi, lo);
    Wide32(hi, lo);
  }

  lemma LowNibble32(w: bv32)
    ensures (w & 0xf) as nat < 16
  {
  }

  lemma Nibble32(w: bv32)
    ensures (w >> 4) as nat == w as nat / 16 && (w & 0xf) as nat == w as nat % 16
  {
    Split32(w);
    LowNibble32(w);
    FromParts(w as nat, (w >> 4) as nat, (w & 0xf) as nat);
  }

  function Join64(hi: bv60, lo: bv4): bv64 {
    ((hi as bv64) << 4) | lo as bv64
  }

  lemma Join64Value(hi: bv60, lo: bv4)
    ensures Join64(hi, lo) as nat == 16 * (hi as nat) + lo as nat
  {
    calc {
      Join64(hi, lo) as nat;
      (((hi as bv64) << 4) | lo as bv64) as nat;
    }
  }

  lemma Join64Parts(hi: bv60, lo: bv4)
    ensures Join64(hi, lo) >> 4 == hi as bv64 && Join64(hi, lo) & 0xf == lo as bv64
  {
  }

  lemma Join64Whole(w: bv64)
    ensures Join64((w >> 4) as bv60, (w & 0xf) as bv4) == w
  {
  }

  lemma Wide64(hi: bv60, lo: bv4)
    ensures (hi as bv64) as nat == hi as nat && (lo as bv64) as nat == lo as nat
  {
  }

  lemma Split64(w: bv64)
    ensures w as nat == 16 * ((w >> 4) as nat) + ((w & 0xf) as nat)
  {
    hide Join64;
    var hi, lo := (w >> 4) as bv60, (w & 0xf) as bv4;
    Join64Whole(w);
    Join64Parts(hi, lo);
    Join64Value(hi, lo);
    Wide64(hi, lo);
  }

  lemma LowNibble64(w: bv64)
    ensures (w & 0xf) as nat < 16
  {
  }

  lemma Nibble64(w: bv64)
    ensures (w >> 4) as nat == w as nat / 16 && (w & 0xf) as nat == w as nat % 16
  {
    Split64(w);
    LowNibble64(w);
    FromParts(w as nat, (w >> 4) as nat, (w & 0xf) as nat);
  }

  // ----- BCD words -----

  function Next32(w: bv32): bv32 {
    w >> 4
  }

  function Next64(w: bv64): bv64 {
    w >> 4
  }

  /** w has at most k nibbles, each a decimal digit. */
  predicate BcdBits32(w: bv32, k: nat) {
    if k == 0 then w == 0 else w & 0xf <= 9 && BcdBits32(Next32(w), k - 1)
  }

  predicate BcdBits64(w: bv64, k: nat) {
    if k == 0 then w == 0 else w & 0xf <= 9 && BcdBits64(Next64(w), k - 1)
  }

  lemma SmallNibble32(w: bv32)
    ensures w & 0xf <= 9 <==> (w & 0xf) as nat <= 9
  {
  }

  lemma Zero32(w: bv32)
    ensures w == 0 <==> w as nat == 0
  {
  }

  lemma SmallNibble64(w: bv64)
    ensures w & 0xf <= 9 <==> (w & 0xf) as nat <= 9
  {
  }

  lemma Zero64(w: bv64)
    ensures w == 0 <==> w as nat == 0
  {
  }

  lemma IsBcdParts(b: nat, k: nat)
    ensures IsBcd(b) <==> b % 16 <= 9 && IsBcd(b / 16)
    ensures k > 0 ==> (b < Pow16(k) <==> b / 16 < Pow16(k - 1))
  {
  }

  lemma {:induction false} BcdBits32Is(w: bv32, k: nat)
    ensures BcdBits32(w, k) <==> IsBcd(w as nat) && w as nat < Pow16(k)
    decreases k
  {
    Zero32(w);
    if k > 0 {
      hide IsBcd;
      BcdBits32Is(Next32(w), k - 1);
      Nibble32(w);
      SmallNibble32(w);
      IsBcdParts(w as nat, k);
    }
  }

  lemma {:induction false} BcdBits64Is(w: bv64, k: nat)
    ensures BcdBits64(w, k) <==> IsBcd(w as nat) && w as nat < Pow16(k)
    decreases k
  {
    Zero64(w);
    if k > 0 {
      hide IsBcd;
      BcdBits64Is(Next64(w), k - 1);
      Nibble64(w);
      SmallNibble64(w);
      IsBcdParts(w as nat, k);
    }
  }

  // ----- reading the nibbles from the top -----

  /** n without its k low nibbles. */
  function DropNibbles(n: nat, k: nat): nat {
    if k == 0 then n else DropNibbles(n, k - 1) / 16
  }

  lemma {:induction false} DropAll(n: nat, k: nat)
    requires n < Pow16(k)
    ensures DropNibbles(n, k) == 0
  {
    DropBelow(n, k, k);
  }

  lemma {:induction false} DropBelow(n: nat, k: nat, j: nat)
    requires n < Pow16(k) && j <= k
    ensures DropNibbles(n, j) < Pow16(k - j)
  {
    if j > 0 {
      DropBelow(n, k, j - 1);
      assert Pow16(k - (j - 1)) == 16 * Pow16(k - j);
    }
  }

  lemma {:induction false} DropNibblesAhead(n: nat, k: nat)
    requires k > 0
    ensures DropNibbles(n, k) == DropNibbles(n / 16, k - 1)
  {
    if k > 1 {
      DropNibblesAhead(n, k - 1);
    }
  }

  lemma NibblesOf32(w: bv32, n: nat)
    requires w as nat == n
    ensures (w >> 4) as nat == n / 16 && (w & 0xf) as nat == n % 16
  {
    Nibble32(w);
  }

  lemma NibblesOf64(w: bv64, n: nat)
    requires w as nat == n
    ensures (w >> 4) as nat == n / 16 && (w & 0xf) as nat == n % 16
  {
    Nibble64(w);
  }
}
