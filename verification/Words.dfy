/** Fixed-width machine words: the numbers C calls uint32_t and uint64_t, and
    the bit patterns behind them.  Arithmetic that matters modulo a power of two
    is done on numbers, shifts and xors are done on bit patterns; the functions
    here go from one to the other. */
module Words {

  const TWO32: nat := 0x1_0000_0000
  const TWO64: nat := 0x1_0000_0000_0000_0000

  type u32 = n: nat | n < TWO32
  type u64 = n: nat | n < TWO64

  type byte = bv8
  type word = bv32

  function Rotl(x: word, n: bv6): word
    requires 0 < n < 32
  {
    (x << n) | (x >> (32 - n))
  }

  function Pow2(k: nat): (p: nat)
    ensures p > 0
  {
    if k == 0 then 1 else 2 * Pow2(k - 1)
  }

  lemma {:induction false} Pow2Add(j: nat, k: nat)
    ensures Pow2(j + k) == Pow2(j) * Pow2(k)
  {
    if j > 0 {
      Pow2Add(j - 1, k);
    }
  }

  lemma Pow2Words()
    ensures Pow2(64) == TWO64
  {
    hide Pow2;
    Pow2Four();
    Pow2Add(4, 4);
    Pow2Add(8, 8);
    Pow2Add(16, 16);
    Pow2Add(32, 32);
  }

  lemma Pow2Four()
    ensures Pow2(4) == 16
  {
  }

  /** The bit pattern of a byte, counted up from zero. */
  function Byte(n: nat): bv8 {
    if n == 0 then 0 else Byte(n - 1) + 1
  }

  function Concat4(a: bv8, b: bv8, c: bv8, d: bv8): bv32 {
    (a as bv32 << 24) | (b as bv32 << 16) | (c as bv32 << 8) | d as bv32
  }

  function Concat2(hi: bv32, lo: bv32): bv64 {
    (hi as bv64 << 32) | lo as bv64
  }

  /** The bit pattern of a 32-bit number, put together from its bytes. */
  function Bits32(n: u32): bv32 {
    Concat4(Byte(n / 0x100_0000), Byte(n / 0x1_0000 % 0x100), Byte(n / 0x100 % 0x100), Byte(n % 0x100))
  }

  /** The bit pattern of a 64-bit number, put together from its halves. */
  function Bits64(n: u64): bv64 {
    Concat2(Bits32(n / TWO32), Bits32(n % TWO32))
  }

  lemma {:induction false} ByteValue(n: nat)
    requires n < 0x100
    ensures Byte(n) as nat == n
  {
    if n > 0 {
      ByteValue(n - 1);
    }
  }

  lemma Concat4Value(a: bv8, b: bv8, c: bv8, d: bv8)
    ensures Concat4(a, b, c, d) as nat
         == a as nat * 0x100_0000 + b as nat * 0x1_0000 + c as nat * 0x100 + d as nat
  {
    calc {
      Concat4(a, b, c, d) as nat;
      ((a as bv32 << 24) | (b as bv32 << 16) | (c as bv32 << 8) | d as bv32) as nat;
    }
  }

  lemma Concat2Value(hi: bv32, lo: bv32)
    ensures Concat2(hi, lo) as nat == hi as nat * TWO32 + lo as nat
  {
    calc {
      Concat2(hi, lo) as nat;
      ((hi as bv64 << 32) | lo as bv64) as nat;
    }
  }

  lemma Digits256(n: u32)
    ensures n == n / 0x100_0000 * 0x100_0000 + n / 0x1_0000 % 0x100 * 0x1_0000 + n / 0x100 % 0x100 * 0x100 + n % 0x100
  {
    assert n / 0x1_0000 == n / 0x100 / 0x100 && n / 0x100_0000 == n / 0x1_0000 / 0x100;
  }

  lemma FourBytes(n: u32, a: nat, b: nat, c: nat, d: nat, u: bv8, v: bv8, w: bv8, x: bv8)
    requires n == a * 0x100_0000 + b * 0x1_0000 + c * 0x100 + d
    requires u as nat == a && v as nat == b && w as nat == c && x as nat == d
    ensures Concat4(u, v, w, x) as nat == n
  {
    Concat4Value(u, v, w, x);
  }

  lemma Bits32Value(n: u32)
    ensures Bits32(n) as nat == n
  {
    Digits256(n);
    var a, b, c, d := n / 0x100_0000, n / 0x1_0000 % 0x100, n / 0x100 % 0x100, n % 0x100;
    ByteValue(a);
    ByteValue(b);
    ByteValue(c);
    ByteValue(d);
    FourBytes(n, a, b, c, d, Byte(a), Byte(b), Byte(c), Byte(d));
  }

  /** Bits64 is the word whose value is n, and by Same64 the only one. */
  lemma Bits64Value(n: u64)
    ensures Bits64(n) as nat == n
  {
    Bits32Value(n / TWO32);
    Bits32Value(n % TWO32);
    Concat2Value(Bits32(n / TWO32), Bits32(n % TWO32));
  }

  lemma Renumber64(v: bv64)
    ensures (v as nat) as bv64 == v
  {
  }

  lemma Same64(v: bv64, w: bv64)
    requires v as nat == w as nat
    ensures v == w
  {
    Renumber64(v);
    Renumber64(w);
  }

  lemma Renumber32(v: bv32)
    ensures (v as nat) as bv32 == v
  {
  }

  lemma Same32(v: bv32, w: bv32)
    requires v as nat == w as nat
    ensures v == w
  {
    Renumber32(v);
    Renumber32(w);
  }

  lemma Bits32Inverse(w: bv32)
    ensures w as nat < TWO32 && Bits32(w as nat) == w
  {
    Bits32Value(w as nat);
    Same32(w, Bits32(w as nat));
  }

  lemma Bits64Unique(n: u64, v: bv64)
    requires v as nat == n
    ensures Bits64(n) == v
  {
    hide Bits64;
    Bits64Value(n);
    Same64(Bits64(n), v);
  }

  lemma Bits64Inverse(w: bv64)
    ensures w as nat < TWO64 && Bits64(w as nat) == w
  {
    Bits64Unique(w as nat, w);
  }

  // ----- small numbers as words, and adding them -----

  function Inc(w: bv32): bv32 {
    w + 1
  }

  function Dec(w: bv32): bv32 {
    w - 1
  }

  function Plus(a: bv32, b: bv32): bv32 {
    a + b
  }

  /** The word of an integer, negative ones in two's complement. */
  function IntWord(n: int): bv32
    decreases if n < 0 then -n else n
  {
    if n > 0 then Inc(IntWord(n - 1)) else if n < 0 then Dec(IntWord(n + 1)) else 0
  }

  function Widen(a: bv8): bv32 {
    a as bv32
  }

  lemma WidenInc(a: bv8)
    ensures Inc(Widen(a)) as nat == a as nat + 1
  {
    calc {
      Inc(Widen(a)) as nat;
      (a as bv32 + 1) as nat;
    }
  }

  lemma WidenOf(w: bv32) returns (a: bv8)
    requires w as nat < 256
    ensures Widen(a) == w && a as nat == w as nat
  {
    Below256(w);
    Narrow(w);
    a := w as bv8;
    WidenValue(a);
  }

  lemma Below256(w: bv32)
    ensures w < 256 <==> w as nat < 256
  {
  }

  lemma Narrow(w: bv32)
    requires w < 256
    ensures Widen(w as bv8) == w
  {
  }

  lemma WidenValue(a: bv8)
    ensures Widen(a) as nat == a as nat
  {
  }

  lemma BitsInc(k: nat)
    requires k < 256
    ensures Bits32(k + 1) == Inc(Bits32(k))
  {
    hide Inc, Widen, Bits32;
    Bits32Value(k);
    Bits32Value(k + 1);
    var a := WidenOf(Bits32(k));
    WidenInc(a);
    Same32(Bits32(k + 1), Inc(Bits32(k)));
  }

  lemma PlusSteps(a: bv32, b: bv32)
    ensures Plus(a, Inc(b)) == Inc(Plus(a, b)) && Plus(a, Dec(b)) == Dec(Plus(a, b)) && Plus(a, 0) == a
  {
  }

  lemma DecInc(a: bv32)
    ensures Dec(Inc(a)) == a
  {
  }

  /** Words add as numbers do while the numbers stay small. */
  lemma {:induction false} PlusInt(e: nat, n: int)
    requires e < 256 && 0 <= e + n < 256
    ensures Plus(Bits32(e), IntWord(n)) == Bits32(e + n)
    decreases if n < 0 then -n else n
  {
    hide Inc, Dec, Plus, Bits32;
    if n > 0 {
      PlusInt(e, n - 1);
      PlusSteps(Bits32(e), IntWord(n - 1));
      BitsInc(e + n - 1);
    } else if n < 0 {
      PlusInt(e, n + 1);
      PlusSteps(Bits32(e), IntWord(n + 1));
      BitsInc(e + n);
      DecInc(Bits32(e + n));
    } else {
      PlusSteps(Bits32(e), 0);
    }
  }
}
