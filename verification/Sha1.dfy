/** SHA-1 as FIPS 180-4 defines it. */
module Sha1Spec {
  import opened Words

  function Xor4(a: word, b: word, c: word, d: word): word {
    a ^ b ^ c ^ d
  }

  // ----- padding, section 5.1.1 -----

  /** The k-byte big-endian form of n. */
  function BigEndian(n: nat, k: nat): (s: seq<byte>)
    ensures |s| == k
  {
    if k == 0 then [] else BigEndian(n / 0x100, k - 1) + [Byte(n % 0x100)]
  }

  function Zeros(k: nat): (s: seq<byte>)
    ensures |s| == k && forall i :: 0 <= i < k ==> s[i] == 0
  {
    seq(k, _ => 0)
  }

  /** How many zero bytes bring the message, the mark and the eight length
      bytes to a multiple of 64. */
  function ZeroCount(n: nat): (k: nat)
    ensures k < 64 && (n + 1 + k + 8) % 64 == 0
  {
    (119 - n % 64) % 64
  }

  function Padded(m: seq<byte>): (p: seq<byte>)
    ensures |p| % 64 == 0
  {
    m + [0x80] + Zeros(ZeroCount(|m|)) + BigEndian(8 * |m|, 8)
  }

  // ----- functions and constants, sections 4.1.1 and 4.2.1 -----

  function F(t: nat, x: word, y: word, z: word): word {
    if t < 20 then (x & y) ^ (!x & z)
    else if 40 <= t < 60 then (x & y) ^ (x & z) ^ (y & z)
    else x ^ y ^ z
  }

  function K(t: nat): word {
    if t < 20 then 0x5a827999
    else if t < 40 then 0x6ed9eba1
    else if t < 60 then 0x8f1bbcdc
    else 0xca62c1d6
  }

  // ----- the hash computation, section 6.1.2 -----

  function MessageWord(block: seq<byte>, t: nat): word
    requires |block| == 64 && t < 16
  {
    Concat4(block[4 * t], block[4 * t + 1], block[4 * t + 2], block[4 * t + 3])
  }

  /** The message schedule. */
  function W(block: seq<byte>, t: nat): word
    requires |block| == 64
  {
    if t < 16 then MessageWord(block, t)
    else Rotl(Xor4(W(block, t - 3), W(block, t - 8), W(block, t - 14), W(block, t - 16)), 1)
  }

  datatype Vars = Vars(a: word, b: word, c: word, d: word, e: word)

  function Round(v: Vars, t: nat, w: word): Vars {
    Vars(Sum5(Rotl(v.a, 5), F(t, v.b, v.c, v.d), v.e, K(t), w), v.a, Rotl(v.b, 30), v.c, v.d)
  }

  /** Sums of words are taken modulo 2^32. */
  function Sum5(p: word, q: word, r: word, s: word, t: word): word {
    p + q + r + s + t
  }

  function Add(p: word, q: word): word {
    p + q
  }

  /** The working variables after t rounds. */
  function Rounds(block: seq<byte>, v: Vars, t: nat): Vars
    requires |block| == 64
  {
    if t == 0 then v else Round(Rounds(block, v, t - 1), t - 1, W(block, t - 1))
  }

  function Compress(h: Vars, block: seq<byte>): Vars
    requires |block| == 64
  {
    var r := Rounds(block, h, 80);
    Vars(Add(h.a, r.a), Add(h.b, r.b), Add(h.c, r.c), Add(h.d, r.d), Add(h.e, r.e))
  }

  function Blocks(h: Vars, p: seq<byte>): Vars
    requires |p| % 64 == 0
    decreases |p|
  {
    if p == [] then h else Blocks(Compress(h, p[..64]), p[64..])
  }

  const INITIAL: Vars := Vars(0x67452301, 0xEFCDAB89, 0x98BADCFE, 0x10325476, 0xC3D2E1F0)

  function WordBytes(w: word): (s: seq<byte>)
    ensures |s| == 4
  {
    [((w >> 24) & 0xff) as byte, ((w >> 16) & 0xff) as byte, ((w >> 8) & 0xff) as byte, (w & 0xff) as byte]
  }

  function WordsBytes(ws: seq<word>): (s: seq<byte>)
    ensures |s| == 4 * |ws|
  {
    if ws == [] then [] else WordsBytes(ws[..|ws| - 1]) + WordBytes(ws[|ws| - 1])
  }

  function VarsBytes(v: Vars): (s: seq<byte>)
    ensures |s| == 20
  {
    WordsBytes([v.a, v.b, v.c, v.d, v.e])
  }

  /** The message digest. */
  function Digest(m: seq<byte>): (s: seq<byte>)
    ensures |s| == 20
  {
    VarsBytes(Blocks(INITIAL, Padded(m)))
  }
}

/** The repository's SHA-1: a widened schedule recurrence, an algebraic choice
    function, and a message that is hashed block by block where it lies, with
    only the end copied out for padding. */
module Sha1 {
  import opened Words
  import opened Sha1Spec

  // ----- why the shortcuts are right -----

  lemma XorsCancel(a: word, b: word, c: word, d: word, e: word, f: word, g: word, h: word, k: word, j: word)
    ensures Xor4(Xor4(a, b, c, d), Xor4(b, e, f, g), Xor4(c, f, h, k), Xor4(d, g, k, j)) == Xor4(a, e, h, j)
  {
    calc {
      Xor4(Xor4(a, b, c, d), Xor4(b, e, f, g), Xor4(c, f, h, k), Xor4(d, g, k, j));
      Xor4(a ^ b ^ c ^ d, b ^ e ^ f ^ g, c ^ f ^ h ^ k, d ^ g ^ k ^ j);
      (a ^ b ^ c ^ d) ^ (b ^ e ^ f ^ g) ^ (c ^ f ^ h ^ k) ^ (d ^ g ^ k ^ j);
      a ^ e ^ h ^ j;
      Xor4(a, e, h, j);
    }
  }

  lemma TurnTwice(x: word, y: word, z: word, u: word)
    ensures Rotl(Xor4(Rotl(x, 1), Rotl(y, 1), Rotl(z, 1), Rotl(u, 1)), 1) == Rotl(Xor4(x, y, z, u), 2)
  {
  }

  /** From word 32 on the schedule can look twice as far back and turn twice. */
  lemma Widened(block: seq<byte>, i: nat)
    requires |block| == 64 && i >= 32
    ensures W(block, i)
         == Rotl(Xor4(W(block, i - 6), W(block, i - 16), W(block, i - 28), W(block, i - 32)), 2)
  {
    hide Rotl, Xor4;
    var w := (t: nat) => W(block, t);
    TurnTwice(Xor4(w(i - 6), w(i - 11), w(i - 17), w(i - 19)), Xor4(w(i - 11), w(i - 16), w(i - 22), w(i - 24)),
      Xor4(w(i - 17), w(i - 22), w(i - 28), w(i - 30)), Xor4(w(i - 19), w(i - 24), w(i - 30), w(i - 32)));
    XorsCancel(w(i - 6), w(i - 11), w(i - 17), w(i - 19),
      w(i - 16), w(i - 22), w(i - 24), w(i - 28), w(i - 30), w(i - 32));
  }

  lemma Choice(t: nat, b: word, c: word, d: word)
    requires t < 20
    ensures F(t, b, c, d) == d ^ (b & (c ^ d))
  {
  }

  lemma Parity(t: nat, b: word, c: word, d: word)
    requires 20 <= t < 40 || 60 <= t
    ensures F(t, b, c, d) == b ^ c ^ d
  {
  }

  lemma Majority(t: nat, b: word, c: word, d: word)
    requires 40 <= t < 60
    ensures F(t, b, c, d) == (b & c) | (b & d) | (c & d)
  {
  }

  // ----- the block function -----

  /** The five words of the hash state. */
  ghost function State(h: array<word>): Vars
    requires h.Length == 5
    reads h
  {
    Vars(h[0], h[1], h[2], h[3], h[4])
  }

  method ReadWord(buf: seq<byte>, at: nat) returns (w: word)
    requires at + 4 <= |buf|
    ensures w == Concat4(buf[at], buf[at + 1], buf[at + 2], buf[at + 3])
  {
    w := 0;
    w := w ^ buf[at] as word;
    w := w << 8;
    w := w ^ buf[at + 1] as word;
    w := w << 8;
    w := w ^ buf[at + 2] as word;
    w := w << 8;
    w := w ^ buf[at + 3] as word;
  }

  lemma FirstWords(block: seq<byte>, i: nat)
    requires |block| == 64 && i < 16
    ensures W(block, i) == Concat4(block[4 * i], block[4 * i + 1], block[4 * i + 2], block[4 * i + 3])
  {
  }

  lemma Recurrence(block: seq<byte>, i: nat)
    requires |block| == 64 && 16 <= i
    ensures W(block, i) == Rotl(Xor4(W(block, i - 3), W(block, i - 8), W(block, i - 14), W(block, i - 16)), 1)
  {
  }

  /** The 80 words of the schedule, from word 32 on by the widened recurrence. */
  method Schedule(block: seq<byte>) returns (s32: array<word>)
    requires |block| == 64
    ensures fresh(s32) && s32.Length == 80
    ensures forall j: nat :: j < 80 ==> s32[j] == W(block, j)
  {
    hide Rotl, Xor4, Concat4, W;
    s32 := new word[80];
    for i := 0 to 16
      invariant forall j: nat :: j < i ==> s32[j] == W(block, j)
    {
      var w := ReadWord(block, 4 * i);
      s32[i] := w;
      FirstWords(block, i);
    }
    for i := 16 to 32
      invariant forall j: nat :: j < i ==> s32[j] == W(block, j)
    {
      Recurrence(block, i);
      s32[i] := Rotl(Xor4(s32[i - 3], s32[i - 8], s32[i - 14], s32[i - 16]), 1);
    }
    for i := 32 to 80
      invariant forall j: nat :: j < i ==> s32[j] == W(block, j)
    {
      Widened(block, i);
      s32[i] := Rotl(Xor4(s32[i - 6], s32[i - 16], s32[i - 28], s32[i - 32]), 2);
    }
  }

  /** The round function and constant, chosen by the round number over 20. */
  method RoundParameters(i: nat, b: word, c: word, d: word) returns (f: word, k: word)
    requires i < 80
    ensures f == F(i, b, c, d) && k == K(i)
  {
    hide F;
    match i / 20 {
      case 0 =>
        Choice(i, b, c, d);
        f, k := d ^ (b & (c ^ d)), 0x5a827999;
      case 1 =>
        Parity(i, b, c, d);
        f, k := b ^ c ^ d, 0x6ed9eba1;
      case 2 =>
        Majority(i, b, c, d);
        f, k := (b & c) | (b & d) | (c & d), 0x8f1bbcdc;
      case _ =>
        Parity(i, b, c, d);
        f, k := b ^ c ^ d, 0xca62c1d6;
    }
  }

  method Chunk(h: array<word>, block: seq<byte>)
    requires h.Length == 5 && |block| == 64
    modifies h
    ensures State(h) == Compress(old(State(h)), block)
  {
    hide Rotl, F, K, W, Sum5, Add;
    var s32 := Schedule(block);
    var a, b, c, d, e := h[0], h[1], h[2], h[3], h[4];
    for i := 0 to 80
      invariant Vars(a, b, c, d, e) == Rounds(block, State(h), i)
      invariant State(h) == old(State(h))
      invariant forall j: nat :: j < 80 ==> s32[j] == W(block, j)
    {
      var f, k := RoundParameters(i, b, c, d);
      var tmp := Sum5(Rotl(a, 5), f, e, k, s32[i]);
      a, b, c, d, e := tmp, a, Rotl(b, 30), c, d;
    }
    h[0], h[1], h[2], h[3], h[4] := Add(h[0], a), Add(h[1], b), Add(h[2], c), Add(h[3], d), Add(h[4], e);
  }

  // ----- the whole message -----

  lemma {:induction false} BlocksStep(h: Vars, p: seq<byte>, j: nat)
    requires |p| % 64 == 0 && j % 64 == 0 && j + 64 <= |p|
    ensures Blocks(h, p[j..]) == Blocks(Compress(h, p[j..j + 64]), p[j + 64..])
  {
    hide Compress;
    assert p[j..][..64] == p[j..j + 64];
    assert p[j..][64..] == p[j + 64..];
  }

  /** n without its j low bytes. */
  function DropBytes(n: nat, j: nat): nat {
    if j == 0 then n else DropBytes(n / 0x100, j - 1)
  }

  lemma {:induction false} BigEndianAt(n: nat, k: nat, i: nat)
    requires i < k
    ensures BigEndian(n, k)[i] == Byte(DropBytes(n, k - 1 - i) % 0x100)
  {
    hide Byte;
    if i < k - 1 {
      BigEndianAt(n / 0x100, k - 1, i);
    }
  }

  lemma DropBytesIs(n: nat)
    ensures DropBytes(n, 0) == n && DropBytes(n, 1) == n / 0x100
    ensures DropBytes(n, 2) == n / 0x1_0000 && DropBytes(n, 3) == n / 0x100_0000
    ensures DropBytes(n, 4) == n / 0x1_0000_0000 && DropBytes(n, 5) == n / 0x100_0000_0000
    ensures DropBytes(n, 6) == n / 0x1_0000_0000_0000 && DropBytes(n, 7) == n / 0x100_0000_0000_0000
  {
    var n4 := n / 0x100 / 0x100 / 0x100 / 0x100;
    assert DropBytes(n, 4) == DropBytes(n4, 0);
    assert DropBytes(n, 5) == DropBytes(n4, 1);
    assert DropBytes(n, 6) == DropBytes(n4, 2);
    assert DropBytes(n, 7) == DropBytes(n4, 3);
    assert n4 == n / 0x1_0000_0000;
  }

  lemma LengthBytes(n: nat)
    ensures BigEndian(n, 8)[0] == Byte(n / 0x100_0000_0000_0000 % 0x100)
    ensures BigEndian(n, 8)[1] == Byte(n / 0x1_0000_0000_0000 % 0x100)
    ensures BigEndian(n, 8)[2] == Byte(n / 0x100_0000_0000 % 0x100)
    ensures BigEndian(n, 8)[3] == Byte(n / 0x1_0000_0000 % 0x100)
    ensures BigEndian(n, 8)[4] == Byte(n / 0x100_0000 % 0x100)
    ensures BigEndian(n, 8)[5] == Byte(n / 0x1_0000 % 0x100)
    ensures BigEndian(n, 8)[6] == Byte(n / 0x100 % 0x100)
    ensures BigEndian(n, 8)[7] == Byte(n % 0x100)
  {
    hide Byte, BigEndian, DropBytes;
    DropBytesIs(n);
    forall i: nat | i < 8 ensures BigEndian(n, 8)[i] == Byte(DropBytes(n, 7 - i) % 0x100) {
      BigEndianAt(n, 8, i);
    }
  }

  /** The eight length bytes at the end of a block. */
  method PutLength(l: array<byte>, bsz: nat)
    requires l.Length == 64 && bsz < 0x2000_0000_0000_0000
    modifies l
    ensures forall i :: 0 <= i < 56 ==> l[i] == old(l[i])
    ensures l[56..] == BigEndian(8 * bsz, 8)
  {
    hide Byte, BigEndian;
    var b64 := bsz * 8 % TWO64;
    assert b64 == 8 * bsz;
    LengthBytes(b64);
    ghost var e := BigEndian(b64, 8);
    PutFour(l, 56, Byte(b64 / 0x100_0000_0000_0000 % 0x100), Byte(b64 / 0x1_0000_0000_0000 % 0x100),
      Byte(b64 / 0x100_0000_0000 % 0x100), Byte(b64 / 0x1_0000_0000 % 0x100));
    PutFour(l, 60, Byte(b64 / 0x100_0000 % 0x100), Byte(b64 / 0x1_0000 % 0x100),
      Byte(b64 / 0x100 % 0x100), Byte(b64 % 0x100));
    assert l[56] == e[0] && l[57] == e[1] && l[58] == e[2] && l[59] == e[3];
    assert l[60] == e[4] && l[61] == e[5] && l[62] == e[6] && l[63] == e[7];
    forall k | 0 <= k < 8 ensures l[56..][k] == e[k] {
    }
  }

  method PutFour(l: array<byte>, at: nat, a: byte, b: byte, c: byte, d: byte)
    requires at + 4 <= l.Length
    modifies l
    ensures l[at] == a && l[at + 1] == b && l[at + 2] == c && l[at + 3] == d
    ensures forall i :: 0 <= i < l.Length && !(at <= i < at + 4) ==> l[i] == old(l[i])
  {
    l[at] := a;
    l[at + 1] := b;
    l[at + 2] := c;
    l[at + 3] := d;
  }

  /** The end of a padded message of bsz bytes, from the last unfinished block on. */
  ghost function Ending(buf: seq<byte>, bsz: nat): (p: seq<byte>)
    requires |buf| == bsz % 64
    ensures |p| % 64 == 0
  {
    EndingFits(bsz, ZeroCount(bsz));
    buf + [0x80] + Zeros(ZeroCount(bsz)) + BigEndian(8 * bsz, 8)
  }

  lemma EndingFits(n: nat, k: nat)
    requires (n + 1 + k + 8) % 64 == 0
    ensures (n % 64 + 1 + k + 8) % 64 == 0
  {
  }

  /** Hashes the last, unfinished block: buf holds what is left of a message of
      bsz bytes. */
  method Finish(h: array<word>, buf: seq<byte>, bsz: nat)
    requires h.Length == 5 && bsz < 0x2000_0000_0000_0000 && |buf| == bsz % 64
    modifies h
    ensures State(h) == Blocks(old(State(h)), Ending(buf, bsz))
  {
    hide Compress, BigEndian, Blocks;
    var rsz := bsz % 64;
    ghost var z, length := ZeroCount(bsz), BigEndian(8 * bsz, 8);
    ghost var all := buf + [0x80] + Zeros(z) + length;
    var l := new byte[64](i requires 0 <= i < 64 => if i < |buf| then buf[i] else 0);
    l[rsz] := 0x80;
    if rsz >= 56 {
      assert l[..] == all[..64];
      BlocksStep(State(h), all, 0);
      Chunk(h, l[..]);
      forall i | 0 <= i < 64 {
        l[i] := 0;
      }
      assert l[..56] == all[64..120];
      PutLength(l, bsz);
      assert l[..] == all[64..];
    } else {
      assert l[..56] == all[..56];
      PutLength(l, bsz);
      assert l[..] == all;
    }
    LastBlock(State(h), l[..]);
    Chunk(h, l[..]);
  }

  lemma LastBlock(h: Vars, block: seq<byte>)
    requires |block| == 64
    ensures Blocks(h, block) == Compress(h, block)
  {
    hide Compress;
    assert block[..64] == block && block[64..] == [];
  }

  lemma PaddedPrefix(m: seq<byte>)
    ensures |Padded(m)| > |m| && Padded(m)[..|m|] == m
  {
  }

  lemma SameBlock(m: seq<byte>, all: seq<byte>, j: nat)
    requires j + 64 <= |m| <= |all| && all[..|m|] == m
    ensures m[j..j + 64] == all[j..j + 64]
  {
    assert m[j..j + 64] == all[..|m|][j..j + 64];
  }

  /** A whole block of a message is the next block of any p that starts with it. */
  lemma NextBlock(h: Vars, m: seq<byte>, p: seq<byte>, k: nat)
    requires |p| % 64 == 0 && 64 * k + 64 <= |m| <= |p| && p[..|m|] == m
    ensures Blocks(h, p[64 * k..]) == Blocks(Compress(h, m[64 * k..64 * k + 64]), p[64 * k + 64..])
  {
    hide *;
    SameBlock(m, p, 64 * k);
    BlocksStep(h, p, 64 * k);
  }

  /** Hashes the whole 64-byte blocks of the message where they lie. */
  method WholeBlocks(h: array<word>, buf: seq<byte>) returns (j: nat)
    requires h.Length == 5
    modifies h
    ensures j == |buf| - |buf| % 64
    ensures Blocks(State(h), Padded(buf)[j..]) == Blocks(old(State(h)), Padded(buf))
  {
    hide *;
    ghost var all := Padded(buf);
    PaddedPrefix(buf);
    assert all[0..] == all;
    j := 0;
    ghost var k := 0;
    while j + 64 <= |buf|
      invariant j <= |buf| && j == 64 * k
      invariant Blocks(State(h), all[j..]) == Blocks(old(State(h)), all)
    {
      NextBlock(State(h), buf, all, k);
      Chunk(h, buf[j..j + 64]);
      j := j + 64;
      k := k + 1;
    }
  }

  /** The digest of the message in buf, in big-endian order, into tgt. */
  method Sha(tgt: array<byte>, buf: seq<byte>) returns (rc: int)
    requires tgt.Length == 20 && |buf| < 0x2000_0000_0000_0000
    modifies tgt
    ensures rc == 0 && tgt[..] == Digest(buf)
  {
    hide Compress, BigEndian, Blocks, WordBytes;
    ghost var all := Padded(buf);
    var h := new word[5];
    h[0], h[1], h[2], h[3], h[4] := 0x67452301, 0xEFCDAB89, 0x98BADCFE, 0x10325476, 0xC3D2E1F0;
    if |buf| == 0 {
      EmptyBlock(buf);
      LastBlock(INITIAL, all);
      Chunk(h, [0x80] + seq(63, _ => 0));
    } else {
      var j := WholeBlocks(h, buf);
      assert all[j..] == buf[j..] + [0x80] + Zeros(ZeroCount(|buf|)) + BigEndian(8 * |buf|, 8);
      var rest := |buf| % 64;
      Finish(h, buf[|buf| - rest..], |buf|);
    }
    assert State(h) == Blocks(INITIAL, all);
    PutDigest(tgt, h);
    rc := 0;
  }

  lemma EmptyBlock(m: seq<byte>)
    requires m == []
    ensures Padded(m) == [0x80] + seq(63, _ => 0)
  {
    forall i: nat | i < 8 ensures BigEndian(0, 8)[i] == 0 {
      BigEndianAt(0, 8, i);
      DropBytesIs(0);
    }
  }

  method PutDigest(tgt: array<byte>, h: array<word>)
    requires tgt.Length == 20 && h.Length == 5
    modifies tgt
    ensures tgt[..] == VarsBytes(State(h))
  {
    hide WordBytes;
    for i := 0 to 5
      invariant tgt[..4 * i] == WordsBytes(h[..i])
    {
      ghost var done := tgt[..4 * i];
      PutWord(tgt, 4 * i, h[i]);
      assert tgt[..4 * i + 4] == done + WordBytes(h[i]);
      assert h[..i + 1][..i] == h[..i];
    }
    assert tgt[..] == tgt[..20];
    assert h[..5] == [h[0], h[1], h[2], h[3], h[4]];
  }

  method PutWord(tgt: array<byte>, at: nat, w: word)
    requires at + 4 <= tgt.Length
    modifies tgt
    ensures tgt[at..at + 4] == WordBytes(w)
    ensures forall i :: 0 <= i < tgt.Length && !(at <= i < at + 4) ==> tgt[i] == old(tgt[i])
  {
    PutFour(tgt, at, ((w >> 24) & 0xff) as byte, ((w >> 16) & 0xff) as byte, ((w >> 8) & 0xff) as byte,
      (w & 0xff) as byte);
  }
}
