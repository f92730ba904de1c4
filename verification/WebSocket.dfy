/** Web socket frames, section 5.2 of RFC 6455. */
module Framing {
  import opened Words
  import opened Sha1Spec

  /** The two leading bytes, eight bytes of length, four bytes of key. */
  const HEADER := 14

  function ByteNat(b: byte): nat {
    b as nat
  }

  /** The number that bytes spell, highest first. */
  function Big(s: seq<byte>): nat {
    if s == [] then 0 else Big(s[..|s| - 1]) * 256 + ByteNat(s[|s| - 1])
  }

  /** The header in front of n bytes: a final text frame, masked with a key of
      zeros, its length in the shortest of the three forms. */
  function Header(n: nat): (h: seq<byte>)
    ensures |h| <= HEADER
  {
    [0x81] + Length(n) + [0, 0, 0, 0]
  }

  function Length(n: nat): (l: seq<byte>)
    ensures |l| == if n >= 65536 then 9 else if n >= 126 then 3 else 1
  {
    if n >= 65536 then [0xff] + BigEndian(n, 8)
    else if n >= 126 then [0xfe] + BigEndian(n, 2)
    else [0x80 | Byte(n)]
  }

  function Framed(p: seq<byte>): seq<byte> {
    Header(|p|) + p
  }

  /** A header of each form, byte by byte. */
  lemma HeaderSamples()
    ensures Header(5) == [0x81] + [0x85] + [0, 0, 0, 0]
    ensures Header(258) == [0x81] + ([0xfe] + [1, 2]) + [0, 0, 0, 0]
    ensures Header(66051) == [0x81] + ([0xff] + [0, 0, 0, 0, 0, 1, 2, 3]) + [0, 0, 0, 0]
  {
    ShortSample();
    MiddleSample();
    LongSample();
    hide BigEndian, Byte;
  }

  lemma ShortSample()
    ensures 0x80 | Byte(5) == 0x85
  {
  }

  lemma SmallBytes()
    ensures Byte(0) == 0 && Byte(1) == 1 && Byte(2) == 2 && Byte(3) == 3
  {
  }

  lemma MiddleSample()
    ensures BigEndian(258, 2) == [1, 2]
  {
    SmallBytes();
    hide Byte;
    assert BigEndian(1, 1) == [1];
  }

  lemma LongSample()
    ensures BigEndian(66051, 8) == [0, 0, 0, 0, 0, 1, 2, 3]
  {
    SmallBytes();
    hide Byte;
    assert BigEndian(0, 1) == [0] && BigEndian(0, 2) == [0, 0] && BigEndian(0, 3) == [0, 0, 0];
    assert BigEndian(0, 4) == [0, 0, 0, 0] && BigEndian(0, 5) == [0, 0, 0, 0, 0];
    assert BigEndian(1, 6) == [0, 0, 0, 0, 0, 1] && BigEndian(258, 7) == [0, 0, 0, 0, 0, 1, 2];
  }

  // ----- decoding as the standard says -----

  datatype Frame = Frame(final: bool, opcode: byte, payload: seq<byte>, size: nat) | Malformed

  function Unmasked(p: seq<byte>, key: seq<byte>): seq<byte>
    requires |key| == 4
  {
    seq(|p|, i requires 0 <= i < |p| => p[i] ^ key[i % 4])
  }

  predicate IsMasked(b: byte) {
    b & 0x80 != 0
  }

  function Length7(b: byte): nat {
    ByteNat(b & 0x7f)
  }

  predicate Reserved(b: byte) {
    b & 0x70 != 0
  }

  /** How many bytes the length takes behind the first seven bits. */
  function ExtraBytes(l: nat): nat {
    if l == 126 then 2 else if l == 127 then 8 else 0
  }

  /** Whether a length is written in the shortest form, its highest bit clear. */
  predicate IsMinimal(l: nat, n: nat) {
    if l == 126 then n >= 126 else if l == 127 then 65536 <= n < 0x8000_0000_0000_0000 else n == l
  }

  /** The frame at the front of a stream. */
  function Decode(s: seq<byte>): Frame {
    if |s| < 2 || Reserved(s[0]) then Malformed
    else
      var l := Length7(s[1]);
      var x := 2 + ExtraBytes(l);
      if |s| < x then Malformed
      else
        var n := if l < 126 then l else Big(s[2..x]);
        var k := if IsMasked(s[1]) then x + 4 else x;
        if !IsMinimal(l, n) || |s| < k + n then Malformed
        else
          Frame(s[0] & 0x80 != 0, s[0] & 0xf,
            if IsMasked(s[1]) then Unmasked(s[k..k + n], s[x..k]) else s[k..k + n], k + n)
  }

  function Power256(k: nat): (p: nat)
    ensures p > 0
  {
    if k == 0 then 1 else 256 * Power256(k - 1)
  }

  lemma {:induction false} BigOfBigEndian(n: nat, k: nat)
    requires n < Power256(k)
    ensures Big(BigEndian(n, k)) == n
  {
    if k > 0 {
      var t, b := BigEndian(n / 256, k - 1), Byte(n % 256);
      BigOfBigEndian(n / 256, k - 1);
      ByteIs(n % 256);
      BigAppend(t, b);
      hide Big, ByteNat, Byte, Power256;
      assert BigEndian(n, k) == t + [b];
    }
  }

  lemma BigAppend(t: seq<byte>, b: byte)
    ensures Big(t + [b]) == Big(t) * 256 + ByteNat(b)
  {
    assert (t + [b])[..|t|] == t;
  }

  lemma ByteIs(n: nat)
    requires n < 256
    ensures ByteNat(Byte(n)) == n
  {
    ByteValue(n);
  }

  lemma Powers()
    ensures Power256(2) == 65536 && Power256(8) == 0x1_0000_0000_0000_0000
  {
    assert Power256(4) == 0x1_0000_0000;
  }

  lemma SmallLength(b: byte, n: nat)
    requires ByteNat(b) == n < 126
    ensures IsMasked(0x80 | b) && Length7(0x80 | b) == n
  {
    LowSeven(b);
    Below(b);
  }

  lemma Below(b: byte)
    ensures b < 0x80 <==> ByteNat(b) < 128
  {
  }

  lemma LowSeven(b: byte)
    ensures b < 0x80 ==> (0x80 | b) & 0x7f == b && IsMasked(0x80 | b)
  {
  }

  lemma LongLengths()
    ensures IsMasked(0xff) && Length7(0xff) == 127 && IsMasked(0xfe) && Length7(0xfe) == 126
  {
    assert ByteNat(127) == 127 && ByteNat(126) == 126 by {
      SevenBits();
    }
  }

  lemma SevenBits()
    ensures ByteNat(127) == 127 && ByteNat(126) == 126
  {
  }

  lemma FirstByte()
    ensures !Reserved(0x81) && 0x81 as byte & 0x80 != 0 && 0x81 as byte & 0xf == 1
  {
  }

  lemma XorZero(b: byte)
    ensures b ^ 0 == b
  {
  }

  lemma UnmaskedZeros(p: seq<byte>, key: seq<byte>)
    requires key == [0, 0, 0, 0]
    ensures Unmasked(p, key) == p
  {
    forall i | 0 <= i < |p| ensures Unmasked(p, key)[i] == p[i] {
      XorZero(p[i]);
    }
  }

  /** What the length bytes of a header say. */
  lemma LengthReads(n: nat)
    requires n < 0x8000_0000_0000_0000
    ensures var l := Length(n);
      && IsMasked(l[0]) && |l| == 1 + ExtraBytes(Length7(l[0]))
      && IsMinimal(Length7(l[0]), n)
      && n == if Length7(l[0]) < 126 then Length7(l[0]) else Big(l[1..])
  {
    hide Big, ByteNat, Byte, Power256, IsMasked, Length7;
    Powers();
    LongLengths();
    if n >= 65536 {
      BigOfBigEndian(n, 8);
      assert ([0xff] + BigEndian(n, 8))[1..] == BigEndian(n, 8);
    } else if n >= 126 {
      BigOfBigEndian(n, 2);
      assert ([0xfe] + BigEndian(n, 2))[1..] == BigEndian(n, 2);
    } else {
      ByteIs(n);
      SmallLength(Byte(n), n);
    }
  }

  /** A header says where the payload is and how to read it. */
  lemma DecodeHeader(l: seq<byte>, p: seq<byte>, rest: seq<byte>)
    requires |l| > 0 && IsMasked(l[0]) && |l| == 1 + ExtraBytes(Length7(l[0]))
    requires IsMinimal(Length7(l[0]), |p|)
    requires |p| == if Length7(l[0]) < 126 then Length7(l[0]) else Big(l[1..])
    ensures Decode([0x81] + l + [0, 0, 0, 0] + p + rest) == Frame(true, 1, p, |l| + 5 + |p|)
  {
    var s := [0x81] + l + [0, 0, 0, 0] + p + rest;
    FirstByte();
    hide IsMasked, Length7, Reserved, Big, Unmasked, IsMinimal, ExtraBytes;
    var x := 1 + |l|;
    assert s[0] == 0x81 && s[1] == l[0];
    assert s[2..x] == l[1..];
    assert s[x..x + 4] == [0, 0, 0, 0];
    assert s[x + 4..x + 4 + |p|] == p;
    UnmaskedZeros(p, s[x..x + 4]);
  }

  /** Every payload is decoded from its frame, whatever follows on the stream. */
  lemma DecodeFramed(p: seq<byte>, rest: seq<byte>)
    requires |p| < 0x8000_0000_0000_0000
    ensures Decode(Framed(p) + rest) == Frame(true, 1, p, |Framed(p)|)
  {
    hide Decode, Length, IsMasked, Length7, IsMinimal, Big;
    LengthReads(|p|);
    DecodeHeader(Length(|p|), p, rest);
  }

  /** Puts the frame of a payload together where it lies: the payload stands behind
      room for the longest header, and moves up to the header it gets. */
  method Framify(buf: array<byte>, bsz: nat) returns (n: nat)
    requires HEADER + bsz <= buf.Length && bsz < 0x1_0000_0000_0000_0000
    modifies buf
    ensures n <= buf.Length && buf[..n] == Framed(old(buf[HEADER..HEADER + bsz]))
  {
    hide *;
    var fr, slen := MakeHeader(bsz);
    Move(buf, slen, HEADER, bsz);
    Put(buf, 0, fr[..slen]);
    n := slen + bsz;
    FramedIs(old(buf[HEADER..HEADER + bsz]));
    assert buf[..n] == buf[..slen] + buf[slen..][..bsz];
    assert buf[..0] + fr[..slen] == fr[..slen];
  }

  lemma FramedIs(p: seq<byte>)
    ensures Framed(p) == Header(|p|) + p
  {
  }

  /** The header as the program fills it in: always of full size, of which only a
      part is sent; the key of zeros overlaps the length bytes that are not used. */
  method MakeHeader(bsz: nat) returns (fr: seq<byte>, slen: nat)
    ensures slen <= |fr| == HEADER && fr[..slen] == Header(bsz)
  {
    hide Byte, BigEndian;
    if bsz >= 65536 {
      var elen := BigEndian(bsz, 8);
      fr, slen := [0x81, 0xff] + elen + [0, 0, 0, 0], HEADER;
      assert fr == [0x81] + ([0xff] + elen) + [0, 0, 0, 0];
    } else if bsz >= 126 {
      var elen := BigEndian(bsz, 2);
      fr, slen := [0x81, 0xfe] + (elen + [0, 0, 0, 0, 0, 0]) + [0, 0, 0, 0], 2 + 2 + 4;
      assert fr == [0x81] + ([0xfe] + elen) + [0, 0, 0, 0] + [0, 0, 0, 0, 0, 0];
    } else {
      fr, slen := [0x81, 0x80 | Byte(bsz)] + [0, 0, 0, 0, 0, 0, 0, 0] + [0, 0, 0, 0], 2 + 4;
      assert fr == [0x81] + [0x80 | Byte(bsz)] + [0, 0, 0, 0] + [0, 0, 0, 0, 0, 0, 0, 0];
    }
  }

  /** memmove inside one buffer. */
  method Move(buf: array<byte>, to: nat, from: nat, n: nat)
    requires to + n <= buf.Length && from + n <= buf.Length
    modifies buf
    ensures buf[to..][..n] == old(buf[from..from + n])
  {
    ghost var was := buf[from..from + n];
    forall i | 0 <= i < n {
      buf[to + i] := buf[from + i];
    }
    assert forall i :: 0 <= i < n ==> buf[to..][i] == was[i];
  }

  /** memcpy into a buffer, behind what is there. */
  method Put(buf: array<byte>, at: nat, s: seq<byte>)
    requires at + |s| <= buf.Length
    modifies buf
    ensures buf[..at + |s|] == old(buf[..at]) + s
    ensures buf[at + |s|..] == old(buf[at + |s|..])
  {
    ghost var was := buf[..at];
    forall i | 0 <= i < |s| {
      buf[at + i] := s[i];
    }
    assert buf[..at] == was;
  }
}

/** Base 64, section 4 of RFC 4648. */
module Base64 {
  import opened Framing
  import opened Words

  /** The character for six bits. */
  function Symbol(v: byte): byte {
    if v < 26 then 0x41 + v
    else if v < 52 then 0x61 + (v - 26)
    else if v < 62 then 0x30 + (v - 52)
    else if v == 62 then 0x2b
    else 0x2f
  }

  const PAD: byte := 0x3d

  predicate IsSymbol(c: byte) {
    (0x41 <= c && c <= 0x5a) || (0x61 <= c && c <= 0x7a) || (0x30 <= c && c <= 0x39) || c == 0x2b || c == 0x2f
  }

  function Six(c: byte): byte {
    if 0x41 <= c && c <= 0x5a then c - 0x41
    else if 0x61 <= c && c <= 0x7a then c - 0x61 + 26
    else if 0x30 <= c && c <= 0x39 then c - 0x30 + 52
    else if c == 0x2b then 62
    else 63
  }

  /** The alphabet, table 1 of the standard. */
  lemma Alphabet()
    ensures forall v: byte {:trigger Symbol(v)} :: v < 26 ==> Symbol(v) == Letter('A') + v
    ensures forall v: byte {:trigger Symbol(v)} :: 26 <= v && v < 52 ==> Symbol(v) == Letter('a') + (v - 26)
    ensures forall v: byte {:trigger Symbol(v)} :: 52 <= v && v < 62 ==> Symbol(v) == Letter('0') + (v - 52)
    ensures Symbol(62) == Letter('+') && Symbol(63) == Letter('/') && PAD == Letter('=')
  {
    LetterIs('A', 0x41);
    LetterIs('a', 0x61);
    LetterIs('0', 0x30);
    LetterIs('+', 0x2b);
    LetterIs('/', 0x2f);
    LetterIs('=', 0x3d);
    hide Letter;
  }

  /** A character as a byte. */
  function Letter(c: char): byte {
    Byte(c as nat % 256)
  }

  lemma LetterIs(c: char, b: byte)
    requires c as nat == b as nat
    ensures Letter(c) == b
  {
    hide Byte;
    ByteValue(c as nat);
    SameByte(Letter(c), b);
  }

  lemma SameByte(a: byte, b: byte)
    requires a as nat == b as nat
    ensures a == b
  {
  }

  /** The test vectors of section 10 that end in each of the three ways. */
  lemma TestVectors()
    ensures Encode([0x66]) == [0x5a, 0x67, 0x3d, 0x3d] && Encode([0x66, 0x6f]) == [0x5a, 0x6d, 0x38, 0x3d]
    ensures Encode([0x66, 0x6f, 0x6f]) == [0x5a, 0x6d, 0x39, 0x76] + []
    ensures Encode([0x66, 0x6f, 0x6f, 0x62, 0x61, 0x72]) == [0x5a, 0x6d, 0x39, 0x76] + ([0x59, 0x6d, 0x46, 0x79] + [])
  {
    var s: seq<byte> := [0x66, 0x6f, 0x6f, 0x62, 0x61, 0x72];
    assert s[3..] == [0x62, 0x61, 0x72];
    assert Encode([0x62, 0x61, 0x72]) == [0x59, 0x6d, 0x46, 0x79] + [];
  }

  lemma SixOfSymbol(v: byte)
    requires v < 64
    ensures Six(Symbol(v)) == v && Symbol(v) != PAD && IsSymbol(Symbol(v))
  {
  }

  // the four groups of six bits in three bytes, and back

  function Sym0(a: byte): byte {
    Symbol(a >> 2)
  }

  function Sym1(a: byte, b: byte): byte {
    Symbol(((a << 4) ^ (b >> 4)) & 0x3f)
  }

  function Sym2(b: byte, c: byte): byte {
    Symbol(((b << 2) ^ (c >> 6)) & 0x3f)
  }

  function Sym3(c: byte): byte {
    Symbol(c & 0x3f)
  }

  function Byte0(s: byte, t: byte): byte {
    (Six(s) << 2) | (Six(t) >> 4)
  }

  function Byte1(s: byte, t: byte): byte {
    (Six(s) << 4) | (Six(t) >> 2)
  }

  function Byte2(s: byte, t: byte): byte {
    (Six(s) << 6) | Six(t)
  }

  function Encode(s: seq<byte>): seq<byte>
    decreases |s|
  {
    if |s| == 0 then []
    else if |s| == 1 then [Sym0(s[0]), Sym1(s[0], 0), PAD, PAD]
    else if |s| == 2 then [Sym0(s[0]), Sym1(s[0], s[1]), Sym2(s[1], 0), PAD]
    else [Sym0(s[0]), Sym1(s[0], s[1]), Sym2(s[1], s[2]), Sym3(s[2])] + Encode(s[3..])
  }

  /** What a text stands for; nothing, if it is not made of whole groups. */
  function Decode(t: seq<byte>): seq<byte>
    decreases |t|
  {
    if |t| < 4 then []
    else if t[2] == PAD then [Byte0(t[0], t[1])]
    else if t[3] == PAD then [Byte0(t[0], t[1]), Byte1(t[1], t[2])]
    else [Byte0(t[0], t[1]), Byte1(t[1], t[2]), Byte2(t[2], t[3])] + Decode(t[4..])
  }

  lemma GroupBack(a: byte, b: byte, c: byte)
    ensures Byte0(Sym0(a), Sym1(a, b)) == a && Byte1(Sym1(a, b), Sym2(b, c)) == b && Byte2(Sym2(b, c), Sym3(c)) == c
    ensures Sym2(b, c) != PAD && Sym3(c) != PAD
  {
    SixBits(a, b, c);
    SixOfSymbol(a >> 2);
    SixOfSymbol(((a << 4) ^ (b >> 4)) & 0x3f);
    SixOfSymbol(((b << 2) ^ (c >> 6)) & 0x3f);
    SixOfSymbol(c & 0x3f);
    hide Symbol, Six;
  }

  lemma SixBits(a: byte, b: byte, c: byte)
    ensures a >> 2 < 64 && ((a << 4) ^ (b >> 4)) & 0x3f < 64 && ((b << 2) ^ (c >> 6)) & 0x3f < 64 && c & 0x3f < 64
  {
  }

  /** Decoding gives back every byte string. */
  lemma {:induction false} DecodeEncode(s: seq<byte>)
    ensures Decode(Encode(s)) == s
    decreases |s|
  {
    hide Sym0, Sym1, Sym2, Sym3, Byte0, Byte1, Byte2;
    if |s| == 1 {
      GroupBack(s[0], 0, 0);
    } else if |s| == 2 {
      GroupBack(s[0], s[1], 0);
    } else if |s| > 2 {
      GroupBack(s[0], s[1], s[2]);
      DecodeEncode(s[3..]);
      var t := Encode(s);
      assert t[4..] == Encode(s[3..]);
      assert s == [s[0], s[1], s[2]] + s[3..];
    }
  }

  /** Whole groups first. */
  lemma {:induction false} EncodeConcat(s: seq<byte>, t: seq<byte>)
    requires |s| % 3 == 0
    ensures Encode(s + t) == Encode(s) + Encode(t)
    decreases |s|
  {
    hide Sym0, Sym1, Sym2, Sym3;
    if s == [] {
      assert s + t == t;
    } else {
      EncodeConcat(s[3..], t);
      assert (s + t)[3..] == s[3..] + t;
      assert (s + t)[0] == s[0] && (s + t)[1] == s[1] && (s + t)[2] == s[2];
    }
  }

  /** The text of a twenty-byte digest: six groups of three bytes, then two bytes
      and a pad. */
  method PutBase64(tgt: array<byte>, at: nat, src: seq<byte>) returns (t: nat)
    requires |src| == 20 && at + 28 <= tgt.Length
    modifies tgt
    ensures t == 28 && tgt[..at + 28] == old(tgt[..at]) + Encode(src)
  {
    hide *;
    ghost var before := tgt[..at];
    t := 0;
    var s, k := 0, 0;
    EncodeNone(src);
    while s < 18
      invariant k <= 6 && s == 3 * k && t == 4 * k
      invariant tgt[..at + t] == before + Encode(src[..s])
    {
      Next3(src, s, k);
      Put(tgt, at + t, [Sym0(src[s]), Sym1(src[s], src[s + 1]), Sym2(src[s + 1], src[s + 2]), Sym3(src[s + 2])]);
      s := s + 3;
      t := t + 4;
      k := k + 1;
    }
    Last2(src);
    Put(tgt, at + t, [Sym0(src[18]), Sym1(src[18], src[19]), Sym2(src[19], 0), PAD]);
    t := t + 4;
  }

  lemma EncodeNone(src: seq<byte>)
    ensures src[..0] == [] && Encode(src[..0]) == []
  {
  }

  lemma Next3(src: seq<byte>, s: nat, k: nat)
    requires s == 3 * k && s + 3 <= |src|
    ensures Encode(src[..s + 3])
      == Encode(src[..s]) + [Sym0(src[s]), Sym1(src[s], src[s + 1]), Sym2(src[s + 1], src[s + 2]), Sym3(src[s + 2])]
  {
    hide Sym0, Sym1, Sym2, Sym3, Encode;
    var g := src[s..s + 3];
    assert src[..s + 3] == src[..s] + g;
    EncodeConcat(src[..s], g);
    Group(g);
  }

  lemma Group(g: seq<byte>)
    requires |g| == 3
    ensures Encode(g) == [Sym0(g[0]), Sym1(g[0], g[1]), Sym2(g[1], g[2]), Sym3(g[2])]
  {
    hide Sym0, Sym1, Sym2, Sym3;
    assert g[3..] == [] && Encode([]) == [];
  }

  lemma Last2(src: seq<byte>)
    requires |src| == 20
    ensures Encode(src) == Encode(src[..18]) + [Sym0(src[18]), Sym1(src[18], src[19]), Sym2(src[19], 0), PAD]
  {
    hide Sym0, Sym1, Sym2, Sym3;
    var l := src[18..];
    assert src == src[..18] + l;
    EncodeConcat(src[..18], l);
    assert Encode(l) == [Sym0(l[0]), Sym1(l[0], l[1]), Sym2(l[1], 0), PAD];
  }
}

/** The opening handshake, section 4.2.2 of RFC 6455. */
module Handshake {
  import opened Words
  import opened Sha1Spec
  import Sha1
  import Search
  import Framing
  import Base64

  const END := Search.Bytes("\r\n\r\n")
  const KEY := Search.Bytes("Sec-WebSocket-Key:")
  const MAGIC := Search.Bytes("258EAFA5-E914-47DA-95CA-C5AB0DC85B11")
  const RESPONSE := Search.Bytes("HTTP/1.1 101 Switching Protocols\r\nUpgrade: websocket\r\n"
    + "Connection: Upgrade\r\nSec-WebSocket-Accept: ")

  lemma Sizes()
    ensures |END| == 4 && |KEY| == 18 && |MAGIC| == 36 && |RESPONSE| == 97
  {
    hide Search.Bytes;
  }

  /** A character that C takes for white space here: none above a blank, bytes with
      the high bit set being negative. */
  predicate IsBlank(c: byte) {
    c <= 0x20 || c >= 0x80
  }

  /** Where the run of blank, or of other, characters from i on ends. */
  function RunEnd(s: seq<byte>, i: nat, blank: bool): (e: nat)
    requires i <= |s|
    ensures i <= e <= |s|
    decreases |s| - i
  {
    if i < |s| && IsBlank(s[i]) == blank then RunEnd(s, i + 1, blank) else i
  }

  /** The client's key: the first word from i on. */
  function KeyAt(s: seq<byte>, i: nat): seq<byte>
    requires i <= |s|
  {
    var sec := RunEnd(s, i, true);
    s[sec..RunEnd(s, sec, false)]
  }

  /** The server's answer to a key. */
  function Reply(key: seq<byte>): seq<byte> {
    RESPONSE + Base64.Encode(Digest(key + MAGIC)) + END
  }

  method FindRunEnd(buf: array<byte>, bsz: nat, from: nat, blank: bool) returns (e: nat)
    requires from <= bsz <= buf.Length
    ensures e == RunEnd(buf[..bsz], from, blank)
  {
    e := from;
    while e < bsz && IsBlank(buf[e]) == blank
      invariant from <= e <= bsz && RunEnd(buf[..bsz], e, blank) == RunEnd(buf[..bsz], from, blank)
    {
      e := e + 1;
    }
  }

  /** The first place from i on where t occurs in s, or -1. */
  function First(s: seq<byte>, t: seq<byte>, i: nat): int
    decreases |s| - i
  {
    if Search.OccursAt(s, t, i) then i else if i >= |s| then -1 else First(s, t, i + 1)
  }

  lemma {:induction false} FirstIs(s: seq<byte>, t: seq<byte>, i: nat, e: nat)
    requires i <= e && Search.OccursAt(s, t, e) && forall k :: 0 <= k < e ==> !Search.OccursAt(s, t, k)
    ensures First(s, t, i) == e && e + |t| <= |s|
    decreases e - i
  {
    if i < e {
      FirstIs(s, t, i + 1, e);
    }
  }

  lemma {:induction false} FirstNone(s: seq<byte>, t: seq<byte>, i: nat)
    requires forall k: nat :: !Search.OccursAt(s, t, k)
    ensures First(s, t, i) == -1
    decreases |s| - i
  {
    if i < |s| {
      FirstNone(s, t, i + 1);
    }
  }

  method FindPast(s: seq<byte>, t: seq<byte>) returns (r: int)
    ensures r < 0 <==> First(s, t, 0) < 0
    ensures r >= 0 ==> r == First(s, t, 0) + |t| <= |s|
  {
    hide Search.OccursAt, First;
    r := Search.FindPast(s, t);
    if r >= 0 {
      FirstIs(s, t, 0, r - |t|);
    } else {
      FirstNone(s, t, 0);
    }
  }

  /** Answers a request: nothing while it is not complete, -1 if it brings no key,
      otherwise the reply to its first key, built in the buffer it came in. */
  method RecvHandshake(buf: array<byte>, bsz: nat) returns (n: int)
    requires bsz + 18 <= buf.Length && 129 <= buf.Length && bsz < 0x1000_0000_0000_0000
    modifies buf
    ensures var s, end, key := old(buf[..bsz]), First(old(buf[..bsz]), END, 0), First(old(buf[..bsz]), KEY, 0);
      if end < 0 then n == 0 && buf[..] == old(buf[..])
      else if key < 0 then n == -1 && buf[..] == old(buf[..])
      else key + |KEY| <= |s| && 0 < n <= buf.Length && buf[..n] == Reply(KeyAt(s, key + |KEY|))
  {
    hide Search.Bytes, Digest, First, Reply, Search.OccursAt;
    Sizes();
    ghost var s := buf[..bsz];
    var end := FindPast(buf[..bsz], END);
    if end < 0 {
      return 0;
    }
    var past := FindPast(buf[..bsz], KEY);
    if past < 0 {
      return -1;
    }
    var sec := FindRunEnd(buf, bsz, past, true);
    var eos := FindRunEnd(buf, bsz, sec, false);
    ghost var all := buf[..];
    assert buf[sec..eos] == all[sec..eos] && s == all[..bsz];
    SliceOfSlice(all, bsz, sec, eos);
    n := Answer(buf, sec, eos);
  }

  // ----- which key is answered, in bytes -----

  lemma {:induction false} FirstFinds(s: seq<byte>, t: seq<byte>, i: nat, e: nat)
    requires i <= e && Search.OccursAt(s, t, e)
    ensures i <= First(s, t, i) <= e && Search.OccursAt(s, t, First(s, t, i))
    decreases e - i
  {
    if !Search.OccursAt(s, t, i) {
      FirstFinds(s, t, i + 1, e);
    }
  }

  /** A place where t occurs and before which it does not is the first. */
  lemma FirstMeans(s: seq<byte>, t: seq<byte>, e: nat)
    requires Search.OccursAt(s, t, e)
    ensures First(s, t, 0) >= 0 && (First(s, t, 0) == e <==> forall k: nat :: k < e ==> !Search.OccursAt(s, t, k))
  {
    hide First, Search.OccursAt;
    FirstFinds(s, t, 0, e);
    if forall k: nat :: k < e ==> !Search.OccursAt(s, t, k) {
      FirstIs(s, t, 0, e);
    } else {
      var k: nat :| k < e && Search.OccursAt(s, t, k);
      FirstFinds(s, t, 0, k);
    }
  }

  /** None is found exactly if there is none. */
  lemma NoneMeans(s: seq<byte>, t: seq<byte>)
    ensures First(s, t, 0) < 0 <==> forall k: nat :: !Search.OccursAt(s, t, k)
  {
    hide First, Search.OccursAt;
    if forall k: nat :: !Search.OccursAt(s, t, k) {
      FirstNone(s, t, 0);
    } else {
      var e: nat :| Search.OccursAt(s, t, e);
      FirstFinds(s, t, 0, e);
    }
  }

  lemma {:induction false} RunEndIs(s: seq<byte>, i: nat, e: nat, blank: bool)
    requires i <= e < |s| && IsBlank(s[e]) != blank && forall k :: i <= k < e ==> IsBlank(s[k]) == blank
    ensures RunEnd(s, i, blank) == e
    decreases e - i
  {
    hide IsBlank;
    if i < e {
      RunEndIs(s, i + 1, e, blank);
    }
  }

  /** Up to a blank, or a byte that is negative as a character. */
  predicate Passed(b: byte) {
    b <= 0x20 || 0x80 <= b
  }

  /** What may stand in a key. */
  predicate Printable(b: byte) {
    0x21 <= b && b <= 0x7f
  }

  lemma BlankMeans(b: byte)
    ensures Passed(b) ==> IsBlank(b)
    ensures Printable(b) ==> !IsBlank(b)
    ensures IsBlank(0x0d)
  {
  }

  /** Blanks, a key and a carriage return behind the header's name: the key is what
      stands between. */
  lemma KeyBetween(before: seq<byte>, blanks: seq<byte>, key: seq<byte>, more: seq<byte>)
    requires key != [] && (forall b :: b in blanks ==> Passed(b)) && forall b :: b in key ==> Printable(b)
    ensures KeyAt(before + blanks + key + [0x0d] + more, |before|) == key
  {
    var s, sec := before + blanks + key + [0x0d] + more, |before| + |blanks|;
    var eos := sec + |key|;
    hide IsBlank, Passed, Printable;
    forall k | |before| <= k < sec ensures IsBlank(s[k]) {
      assert s[k] == blanks[k - |before|];
      BlankMeans(s[k]);
    }
    forall k | sec <= k < eos ensures !IsBlank(s[k]) {
      assert s[k] == key[k - sec];
      BlankMeans(s[k]);
    }
    BlankMeans(s[eos]);
    RunEndIs(s, |before|, sec, true);
    RunEndIs(s, sec, eos, false);
    assert s[sec..eos] == key;
  }

  /** A complete request whose header for the key, the first of its name, brings a
      key between blanks and the end of the line is answered by the reply to just
      that key, spelled out as section 4.2.2 wants it. */
  lemma KeyIsAnswered(text: seq<byte>, blanks: seq<byte>, key: seq<byte>, more: seq<byte>, end: nat)
    requires forall i :: 0 <= i < |blanks| ==> blanks[i] <= 0x20 || 0x80 <= blanks[i]
    requires key != [] && forall i :: 0 <= i < |key| ==> 0x21 <= key[i] && key[i] <= 0x7f
    requires var s := text + Search.Bytes("Sec-WebSocket-Key:") + blanks + key + [0x0d] + more;
      && Search.OccursAt(s, Search.Bytes("\r\n\r\n"), end)
      && forall k: nat :: k < |text| ==> !Search.OccursAt(s, Search.Bytes("Sec-WebSocket-Key:"), k)
    ensures var s := text + Search.Bytes("Sec-WebSocket-Key:") + blanks + key + [0x0d] + more;
      && First(s, END, 0) >= 0 && First(s, KEY, 0) == |text| && KeyAt(s, |text| + |KEY|) == key
      && Reply(key) == Search.Bytes("HTTP/1.1 101 Switching Protocols\r\nUpgrade: websocket\r\n"
        + "Connection: Upgrade\r\nSec-WebSocket-Accept: ")
        + Base64.Encode(Digest(key + Search.Bytes("258EAFA5-E914-47DA-95CA-C5AB0DC85B11"))) + Search.Bytes("\r\n\r\n")
  {
    assert (forall b :: b in blanks ==> Passed(b)) && forall b :: b in key ==> Printable(b);
    var name := Search.Bytes("Sec-WebSocket-Key:");
    var s := text + name + blanks + key + [0x0d] + more;
    NameOccurs(text, name, blanks + key + [0x0d] + more);
    assert s == text + name + (blanks + key + [0x0d] + more);
    hide Search.Bytes, Search.OccursAt, First, KeyAt, Passed, Printable, Digest, Base64.Encode;
    FirstMeans(s, END, end);
    FirstMeans(s, KEY, |text|);
    KeyBetween(text + name, blanks, key, more);
  }

  lemma NameOccurs(text: seq<byte>, name: seq<byte>, rest: seq<byte>)
    ensures Search.OccursAt(text + name + rest, name, |text|)
  {
  }

  lemma SliceOfSlice<T>(s: seq<T>, n: nat, i: nat, j: nat)
    requires i <= j <= n <= |s|
    ensures s[..n][i..j] == s[i..j]
  {
  }

  method Answer(buf: array<byte>, sec: nat, eos: nat) returns (len: nat)
    requires 18 <= sec <= eos && eos + 18 <= buf.Length && 129 <= buf.Length && eos < 0x1000_0000_0000_0000
    modifies buf
    ensures 0 < len <= buf.Length && buf[..len] == Reply(old(buf[sec..eos]))
  {
    hide *;
    var digest := KeyDigest(buf, sec, eos);
    ReplyIs(buf[..0], old(buf[sec..eos]));
    Sizes();
    Framing.Put(buf, 0, RESPONSE);
    len := 97;
    var t := Base64.PutBase64(buf, len, digest[..]);
    len := len + t;
    Framing.Put(buf, len, END);
    len := len + 4;
  }

  lemma ReplyIs(nothing: seq<byte>, key: seq<byte>)
    requires nothing == []
    ensures nothing + RESPONSE + Base64.Encode(Digest(key + MAGIC)) + END == Reply(key)
  {
    hide Digest, Base64.Encode, Search.Bytes;
    assert nothing + RESPONSE == RESPONSE;
  }

  /** The hash of the key and the magic string, put behind one another at the front
      of the buffer. */
  method KeyDigest(buf: array<byte>, sec: nat, eos: nat) returns (digest: array<byte>)
    requires 18 <= sec <= eos && eos + 18 <= buf.Length && eos < 0x1000_0000_0000_0000
    modifies buf
    ensures fresh(digest) && digest.Length == 20 && digest[..] == Digest(old(buf[sec..eos]) + MAGIC)
  {
    hide *;
    Sizes();
    var z := eos - sec;
    Framing.Move(buf, 0, sec, z);
    assert buf[..z] == buf[0..][..z];
    Framing.Put(buf, z, MAGIC);
    digest := new byte[20];
    var rc := Sha1.Sha(digest, buf[..z + 36]);
  }
}

/** The users of the web socket: who sits in which slot. */
module Slots {

  /** A slot holds a socket, or a negative number if it is free; user ids count from 1. */
  type Table = seq<int>

  function Live(t: Table): nat {
    if t == [] then 0 else Live(t[..|t| - 1]) + if t[|t| - 1] >= 0 then 1 else 0
  }

  /** The first free slot, or the end of the table. */
  function FirstFree(t: Table, from: nat): (i: nat)
    requires from <= |t|
    ensures from <= i <= |t| && (i < |t| ==> t[i] < 0)
    ensures forall k :: from <= k < i ==> t[k] >= 0
    decreases |t| - from
  {
    if from == |t| || t[from] < 0 then from else FirstFree(t, from + 1)
  }

  function Added(t: Table, s: int): Table {
    var i := FirstFree(t, 0);
    if i < |t| then t[i := s] else t + [s]
  }

  function Killed(t: Table, u: nat): Table
    requires u <= |t|
  {
    if u == 0 then t else t[u - 1 := -1]
  }

  lemma {:induction false} LiveUpdate(t: Table, i: nat, s: int)
    requires i < |t|
    ensures Live(t[i := s]) == Live(t) - (if t[i] >= 0 then 1 else 0) + (if s >= 0 then 1 else 0)
    decreases |t|
  {
    var r, n := t[i := s], |t| - 1;
    if i == n {
      assert r[..n] == t[..n];
    } else {
      assert r[..n] == t[..n][i := s];
      LiveUpdate(t[..n], i, s);
    }
  }

  lemma {:induction false} AllLive(t: Table)
    requires forall k :: 0 <= k < |t| ==> t[k] >= 0
    ensures Live(t) == |t|
    decreases |t|
  {
    if t != [] {
      AllLive(t[..|t| - 1]);
    }
  }

  /** A new user takes a slot nobody holds, and nobody else's slot changes. */
  lemma AddedIsNew(t: Table, s: int)
    requires s >= 0
    ensures var i, r := FirstFree(t, 0), Added(t, s);
      && i < |r| && r[i] == s && (i < |t| ==> t[i] < 0)
      && |r| >= |t| && (forall k :: 0 <= k < |t| && k != i ==> r[k] == t[k])
      && Live(r) == Live(t) + 1
  {
    var i, r := FirstFree(t, 0), Added(t, s);
    if i < |t| {
      LiveUpdate(t, i, s);
    } else {
      assert r[..|t|] == t;
    }
  }

  /** The slot of a user who leaves is free, every other one as it was, and there is
      one user less exactly if there was one in it. */
  lemma KilledIsFree(t: Table, u: nat)
    requires 0 < u <= |t|
    ensures var r := Killed(t, u);
      && |r| == |t| && r[u - 1] < 0 && (forall k :: 0 <= k < |t| && k != u - 1 ==> r[k] == t[k])
      && Live(r) == Live(t) - if t[u - 1] >= 0 then 1 else 0
  {
    LiveUpdate(t, u - 1, -1);
  }

  // ----- the table over a whole run -----

  datatype Event = Arrive(sock: nat) | Leave(u: nat)

  predicate IsRun(t: Table, es: seq<Event>)
    decreases |es|
  {
    es == [] || ((es[0].Leave? ==> es[0].u <= |t|) && IsRun(After(t, es[0]), es[1..]))
  }

  function After(t: Table, e: Event): Table
    requires e.Leave? ==> e.u <= |t|
  {
    match e
    case Arrive(s) => Added(t, s)
    case Leave(u) => Killed(t, u)
  }

  function Run(t: Table, es: seq<Event>): Table
    requires IsRun(t, es)
    decreases |es|
  {
    if es == [] then t else Run(After(t, es[0]), es[1..])
  }

  lemma {:induction false} RunConcat(t: Table, a: seq<Event>, b: seq<Event>)
    requires IsRun(t, a + b)
    ensures IsRun(t, a) && IsRun(Run(t, a), b) && Run(t, a + b) == Run(Run(t, a), b)
    decreases |a|
  {
    if a == [] {
      assert a + b == b;
    } else {
      assert (a + b)[1..] == a[1..] + b;
      RunConcat(After(t, a[0]), a[1..], b);
    }
  }

  /** A taken slot keeps its socket as long as its user does not leave. */
  lemma {:induction false} SlotKept(t: Table, i: nat, es: seq<Event>)
    requires IsRun(t, es) && i < |t| && t[i] >= 0
    requires forall k :: 0 <= k < |es| ==> es[k] != Leave(i + 1)
    ensures i < |Run(t, es)| && Run(t, es)[i] == t[i]
    decreases |es|
  {
    if es != [] {
      match es[0] {
        case Arrive(s) => AddedIsNew(t, s);
        case Leave(u) =>
          assert es[0] != Leave(i + 1);
          if u > 0 {
            KilledIsFree(t, u);
          }
      }
      SlotKept(After(t, es[0]), i, es[1..]);
    }
  }

  /** In every run the socket a user came with is in the slot of the id it was given
      until that user leaves, and right after that the slot is free. */
  lemma SocketStays(before: seq<Event>, s: nat, after: seq<Event>)
    requires IsRun([], before + [Arrive(s)] + after)
    ensures IsRun([], before)
    ensures var t := Run([], before);
      var u := FirstFree(t, 0) + 1;
      (forall k :: 0 <= k < |after| ==> after[k] != Leave(u)) ==>
        var r := Run([], before + [Arrive(s)] + after);
        u <= |r| && r[u - 1] == s && After(r, Leave(u))[u - 1] < 0
  {
    var t := Run0(before, s, after);
    StaysFrom(t, s, after);
    hide *;
  }

  lemma StaysFrom(t: Table, s: nat, after: seq<Event>)
    requires IsRun(Added(t, s), after)
    ensures var u, r := FirstFree(t, 0) + 1, Run(Added(t, s), after);
      (forall k :: 0 <= k < |after| ==> after[k] != Leave(u)) ==>
        u <= |r| && r[u - 1] == s && After(r, Leave(u))[u - 1] < 0
  {
    var u := FirstFree(t, 0) + 1;
    AddedIsNew(t, s);
    hide FirstFree, Added, IsRun, Run;
    if forall k :: 0 <= k < |after| ==> after[k] != Leave(u) {
      SlotKept(Added(t, s), u - 1, after);
      KilledIsFree(Run(Added(t, s), after), u);
    }
  }

  lemma Run0(before: seq<Event>, s: nat, after: seq<Event>) returns (t: Table)
    requires IsRun([], before + [Arrive(s)] + after)
    ensures IsRun([], before) && t == Run([], before) && IsRun(Added(t, s), after)
    ensures Run([], before + [Arrive(s)] + after) == Run(Added(t, s), after)
  {
    assert before + [Arrive(s)] + after == before + ([Arrive(s)] + after);
    RunConcat([], before, [Arrive(s)] + after);
    t := Run([], before);
    assert ([Arrive(s)] + after)[1..] == after;
  }

  /** The most users that were there at one time during a run. */
  function Peak(t: Table, es: seq<Event>): nat
    requires IsRun(t, es)
    decreases |es|
  {
    if es == [] then Live(t) else Max(Live(t), Peak(After(t, es[0]), es[1..]))
  }

  function Max(a: nat, b: nat): nat {
    if a < b then b else a
  }

  lemma {:induction false} LiveBound(t: Table)
    ensures Live(t) <= |t|
    decreases |t|
  {
    if t != [] {
      LiveBound(t[..|t| - 1]);
    }
  }

  /** One event: the table grows exactly when there are more users than ever. */
  lemma AfterGrows(t: Table, e: Event)
    requires e.Leave? ==> e.u <= |t|
    ensures |After(t, e)| == Max(|t|, Live(After(t, e)))
  {
    LiveBound(t);
    match e {
      case Arrive(s) =>
        AddedIsNew(t, s);
        if FirstFree(t, 0) == |t| {
          AllLive(t);
        } else {
          LiveBound(Added(t, s));
        }
      case Leave(u) =>
        LiveBound(Killed(t, u));
    }
  }

  lemma {:induction false} RunGrows(t: Table, es: seq<Event>)
    requires IsRun(t, es)
    ensures |Run(t, es)| == Max(|t|, Peak(t, es))
    decreases |es|
  {
    LiveBound(t);
    if es != [] {
      AfterGrows(t, es[0]);
      RunGrows(After(t, es[0]), es[1..]);
      PeakAtLeast(After(t, es[0]), es[1..]);
    }
  }

  lemma PeakAtLeast(t: Table, es: seq<Event>)
    requires IsRun(t, es)
    ensures Peak(t, es) >= Live(t)
  {
  }

  /** In every run from the start, the table is as long as the greatest number of
      users there were at one time. */
  lemma LengthIsPeak(es: seq<Event>)
    requires IsRun([], es)
    ensures |Run([], es)| == Peak([], es)
  {
    RunGrows([], es);
  }

  /** The table itself. */
  class UserTable {
    var sock: array<int>
    var nsock: nat

    ghost predicate Valid()
      reads this
    {
      nsock <= sock.Length
    }

    ghost function Contents(): Table
      requires Valid()
      reads this, sock
    {
      sock[..nsock]
    }

    constructor ()
      ensures Valid() && Contents() == [] && fresh(sock)
    {
      nsock := 0;
      sock := new int[0];
    }

    method AddUser(s: int) returns (u: nat)
      requires Valid() && s >= 0
      modifies this, sock
      ensures Valid() && Contents() == Added(old(Contents()), s)
      ensures u == FirstFree(old(Contents()), 0) + 1
      ensures sock == old(sock) || fresh(sock)
    {
      ghost var t := Contents();
      var i := 0;
      while i < nsock
        invariant i <= nsock <= sock.Length && Contents() == t && FirstFree(t, 0) == FirstFree(t, i)
        invariant sock == old(sock) && nsock == old(nsock)
      {
        if sock[i] < 0 {
          sock[i] := s;
          assert Contents() == t[i := s];
          return i + 1;
        }
        i := i + 1;
      }
      if nsock >= sock.Length {
        var z := if sock.Length == 0 then 64 else sock.Length * 2;
        var bigger := new int[z];
        forall k | 0 <= k < sock.Length {
          bigger[k] := sock[k];
        }
        sock := bigger;
      }
      sock[nsock] := s;
      nsock := nsock + 1;
      assert Contents() == t + [s];
      return nsock;
    }

    method KillUser(u: nat) returns (rc: int)
      requires Valid() && u <= nsock
      modifies sock
      ensures Valid() && Contents() == Killed(old(Contents()), u) && rc == if u == 0 then -1 else 0
      ensures u > 0 ==> sock[u - 1] == -1 && forall k :: 0 <= k < nsock && k != u - 1 ==> sock[k] == old(sock[k])
    {
      if u == 0 {
        return -1;
      }
      ghost var t := Contents();
      sock[u - 1] := -1;
      assert Contents() == t[u - 1 := -1];
      return 0;
    }
  }
}
