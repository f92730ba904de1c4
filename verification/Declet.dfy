/** Densely packed decimal: three decimal digits in ten bits. */
module Declet {

  /** x is three BCD digits. */
  predicate IsBcd3(x: bv32) {
    x < 0x1000 && x & 0xf <= 9 && (x >> 4) & 0xf <= 9 && (x >> 8) & 0xf <= 9
  }

  /** The low bit of a large digit (8 or 9), all of a small one. */
  function Slim(d: bv32): bv32 {
    if d >= 8 then d & 1 else d
  }

  function Pack(x: bv32): bv32 {
    var b0, b1, b2 := x & 0xf, (x >> 4) & 0xf, (x >> 8) & 0xf;
    var d0, d1, d2 := Slim(b0), Slim(b1), Slim(b2);
    var res := (d2 << 7) | (d1 << 4) | d0;
    var c0, c1, c2 := b0 >= 8, b1 >= 8, b2 >= 8;
    if !c2 && !c1 && !c0 then res
    else if !c2 && !c1 && c0 then res | 0x8
    else if !c2 && c1 && !c0 then (res & !0xe) | 0xa | ((d0 & 0x6) << 4)
    else if !c2 && c1 && c0 then res | 0x40 | 0xe
    else if c2 && !c1 && !c0 then (res & !0xe) | ((d0 & 0x6) << 7) | 0xc
    else if c2 && !c1 && c0 then (res & !0x60) | ((d1 & 0x6) << 7) | 0x20 | 0xe
    else if c2 && c1 && !c0 then (res & !0xe) | ((d0 & 0x6) << 7) | 0xe
    else res | 0x60 | 0xe
  }

  function Unpack(x: bv32): bv32 {
    if x & 0x8 == 0 || (x >> 1) & 0x7 == 0x4 then
      (x & 0xf) | (x & 0x70) | ((x & 0x380) << 1)
    else if (x >> 1) & 0x7 == 0x5 then
      ((x & 0x380) << 1) | 0x80 | (x & 0x10) | ((x & 0x60) >> 4) | (x & 1)
    else if (x >> 1) & 0x7 == 0x6 then
      0x800 | ((x & 0x80) << 1) | (x & 0x70) | ((x & 0x300) >> 7) | (x & 1)
    else if (x >> 5) & 0x3 == 0x2 then
      ((x & 0x380) << 1) | 0x80 | (x & 0x10) | 0x8 | (x & 1)
    else if (x >> 5) & 0x3 == 0x1 then
      0x800 | ((x & 0x80) << 1) | ((x & 0x300) >> 3) | (x & 0x10) | 0x8 | (x & 1)
    else if (x >> 5) & 0x3 == 0x0 then
      0x800 | ((x & 0x80) << 1) | 0x80 | (x & 0x10) | ((x & 0x300) >> 7) | (x & 1)
    else
      0x800 | ((x & 0x80) << 1) | 0x80 | (x & 0x10) | 0x8 | (x & 1)
  }

  /** One bit of a declet, the highest being number 0. */
  function Bit(d: bv32, i: bv6): bv32
    requires i < 10
  {
    (d >> (9 - i)) & 1
  }

  /** Three digits as a BCD word, the leading one first. */
  function Spell(d1: bv32, d2: bv32, d3: bv32): bv32 {
    (d1 << 8) | (d2 << 4) | d3
  }

  /** Unpacking is table 3.3 of IEEE 754-2008, row by row. */
  lemma UnpackIsTable(d: bv32)
    requires d < 0x400
    ensures var b0, b1, b2, b3, b4 := Bit(d, 0), Bit(d, 1), Bit(d, 2), Bit(d, 3), Bit(d, 4);
      var b5, b6, b7, b8, b9 := Bit(d, 5), Bit(d, 6), Bit(d, 7), Bit(d, 8), Bit(d, 9);
      Unpack(d) ==
        if b6 == 0 then Spell(4 * b0 + 2 * b1 + b2, 4 * b3 + 2 * b4 + b5, 4 * b7 + 2 * b8 + b9)
        else if b7 == 0 && b8 == 0 then Spell(4 * b0 + 2 * b1 + b2, 4 * b3 + 2 * b4 + b5, 8 + b9)
        else if b7 == 0 then Spell(4 * b0 + 2 * b1 + b2, 8 + b5, 4 * b3 + 2 * b4 + b9)
        else if b8 == 0 then Spell(8 + b2, 4 * b3 + 2 * b4 + b5, 4 * b0 + 2 * b1 + b9)
        else if b3 == 0 && b4 == 0 then Spell(8 + b2, 8 + b5, 4 * b0 + 2 * b1 + b9)
        else if b3 == 0 then Spell(8 + b2, 4 * b0 + 2 * b1 + b5, 8 + b9)
        else if b4 == 0 then Spell(4 * b0 + 2 * b1 + b2, 8 + b5, 8 + b9)
        else Spell(8 + b2, 8 + b5, 8 + b9)
  {
  }

  /** The declets that packing produces: all but the 24 with idle bits set. */
  predicate IsCanonical(d: bv32) {
    d < 0x400 && !(d & 0x6e == 0x6e && d & 0x300 != 0)
  }

  lemma UnpackPack(x: bv32)
    requires IsBcd3(x)
    ensures Unpack(Pack(x)) == x
  {
  }

  lemma PackIsCanonical(x: bv32)
    requires IsBcd3(x)
    ensures IsCanonical(Pack(x))
  {
  }

  lemma UnpackIsBcd(d: bv32)
    requires d < 0x400
    ensures IsBcd3(Unpack(d))
  {
  }

  lemma PackUnpack(d: bv32)
    requires d < 0x400
    ensures Pack(Unpack(d)) == d <==> IsCanonical(d)
  {
  }
}
