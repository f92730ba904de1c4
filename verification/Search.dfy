/** Finding a byte string in another with a rolling sum. */
module Search {
  import opened Words

  predicate OccursAt<T(==)>(hay: seq<T>, ndl: seq<T>, i: nat) {
    i + |ndl| <= |hay| && hay[i..i + |ndl|] == ndl
  }

  /** A character as C widens it, its sign kept. */
  function Widen(c: byte): bv32 {
    if c & 0x80 != 0 then 0xffff_ff00 | (c as bv32) else c as bv32
  }

  lemma WidenInjective(c: byte, d: byte)
    ensures Widen(c) == Widen(d) <==> c == d
  {
  }

  function Xor(a: bv32, b: bv32): bv32 {
    a ^ b
  }

  lemma XorSwap(a: bv32, b: bv32)
    ensures Xor(a, b) == Xor(b, a)
  {
  }

  lemma XorRegroup(a: bv32, b: bv32, c: bv32)
    ensures Xor(Xor(a, b), c) == Xor(a, Xor(b, c))
  {
    calc {
      Xor(Xor(a, b), c);
      (a ^ b) ^ c;
      a ^ (b ^ c);
      Xor(a, Xor(b, c));
    }
  }

  lemma XorTwice(a: bv32, b: bv32)
    ensures Xor(a, Xor(a, b)) == b
  {
    calc {
      Xor(a, Xor(a, b));
      a ^ (a ^ b);
      b;
    }
  }

  lemma XorNothing(a: bv32)
    ensures Xor(0, a) == a && Xor(a, 0) == a
  {
  }

  lemma XorCancels(a: bv32, b: bv32, c: bv32)
    requires Xor(a, b) == Xor(a, c)
    ensures b == c
  {
    hide Xor;
    XorTwice(a, b);
    XorTwice(a, c);
  }

  /** The sum over a stretch of text. */
  function Sum(s: seq<byte>): bv32 {
    if s == [] then 0 else Xor(Sum(s[..|s| - 1]), Widen(s[|s| - 1]))
  }

  lemma SumAppend(s: seq<byte>, c: byte)
    ensures Sum(s + [c]) == Xor(Sum(s), Widen(c))
  {
    assert (s + [c])[..|s|] == s;
  }

  lemma {:induction false} SumFront(c: byte, s: seq<byte>)
    ensures Sum([c] + s) == Xor(Widen(c), Sum(s))
    decreases |s|
  {
    hide Xor, Widen;
    if s == [] {
      assert [c] + s == [] + [c];
      SumAppend([], c);
      XorNothing(Widen(c));
    } else {
      var t, d := s[..|s| - 1], s[|s| - 1];
      SumFront(c, t);
      assert [c] + s == [c] + t + [d];
      SumAppend([c] + t, d);
      XorRegroup(Widen(c), Sum(t), Widen(d));
    }
  }

  /** Moving the window by one takes one character out and one in. */
  lemma Slide(hay: seq<byte>, i: nat, n: nat)
    requires n > 0 && i + n < |hay|
    ensures Xor(Xor(Sum(hay[i..i + n]), Widen(hay[i])), Widen(hay[i + n])) == Sum(hay[i + 1..i + 1 + n])
  {
    var mid := hay[i + 1..i + n];
    assert hay[i..i + n] == [hay[i]] + mid;
    assert hay[i + 1..i + 1 + n] == mid + [hay[i + n]];
    hide Xor, Widen, Sum;
    SumFront(hay[i], mid);
    SumAppend(mid, hay[i + n]);
    XorSwap(Xor(Widen(hay[i]), Sum(mid)), Widen(hay[i]));
    XorTwice(Widen(hay[i]), Sum(mid));
  }

  /** With equal sums, all characters but the last being equal makes the last one
      equal too. */
  lemma LastIsForced(s: seq<byte>, c: byte, d: byte)
    ensures Sum(s + [c]) == Sum(s + [d]) <==> c == d
  {
    hide Xor, Widen, Sum;
    SumAppend(s, c);
    SumAppend(s, d);
    if Sum(s + [c]) == Sum(s + [d]) {
      XorCancels(Sum(s), Widen(c), Widen(d));
      WidenInjective(c, d);
    }
  }

  lemma LastApart<T>(s: seq<T>)
    requires |s| > 0
    ensures s == s[..|s| - 1] + [s[|s| - 1]]
  {
  }

  lemma SameButLast<T>(s: seq<T>, t: seq<T>)
    requires |s| == |t| > 0 && s[..|s| - 1] == t[..|s| - 1]
    ensures s == t <==> s[|s| - 1] == t[|s| - 1]
  {
    LastApart(s);
    LastApart(t);
  }

  lemma WindowPrefix<T>(hay: seq<T>, i: nat, n: nat)
    requires n > 0 && i + n <= |hay|
    ensures hay[i..i + n][..n - 1] == hay[i..i + n - 1]
  {
  }

  lemma OccursSum(hay: seq<byte>, ndl: seq<byte>, i: nat)
    requires |ndl| > 0 && i + |ndl| <= |hay|
    ensures OccursAt(hay, ndl, i) <==>
      (Sum(hay[i..i + |ndl|]) == Sum(ndl) && hay[i..i + |ndl| - 1] == ndl[..|ndl| - 1])
  {
    var w, n := hay[i..i + |ndl|], |ndl|;
    WindowPrefix(hay, i, n);
    hide Sum;
    if w[..n - 1] == ndl[..n - 1] {
      SameButLast(w, ndl);
      LastApart(w);
      LastApart(ndl);
      LastIsForced(w[..n - 1], w[n - 1], ndl[n - 1]);
    }
  }

  /** The first place where a character stands. */
  method IndexOf(hay: seq<byte>, c: byte) returns (i: nat)
    ensures i <= |hay| && (i < |hay| ==> hay[i] == c)
    ensures forall k :: 0 <= k < i ==> hay[k] != c
  {
    i := 0;
    while i < |hay| && hay[i] != c
      invariant i <= |hay| && forall k :: 0 <= k < i ==> hay[k] != c
    {
      i := i + 1;
    }
  }

  /** Both sums over the first characters, and whether these are all equal. */
  method StartSums(hay: seq<byte>, from: nat, ndl: seq<byte>) returns (k: nat, hsum: bv32, nsum: bv32, eqp: bool)
    requires from < |hay| && |ndl| > 0 && hay[from] == ndl[0]
    ensures k == if from + |ndl| <= |hay| then |ndl| else |hay| - from
    ensures hsum == Sum(hay[from..from + k]) && nsum == Sum(ndl[..k])
    ensures eqp <==> hay[from..from + k] == ndl[..k]
  {
    hide Sum, Xor, Widen;
    k, hsum, nsum, eqp := 1, Widen(hay[from]), Widen(hay[from]), true;
    OneSum(hay[from]);
    assert hay[from..from + 1] == [hay[from]] && ndl[..1] == [hay[from]];
    while from + k < |hay| && k < |ndl|
      invariant 1 <= k <= |ndl| && from + k <= |hay|
      invariant hsum == Sum(hay[from..from + k]) && nsum == Sum(ndl[..k])
      invariant eqp <==> hay[from..from + k] == ndl[..k]
    {
      var c, d := hay[from + k], ndl[k];
      assert hay[from..from + k + 1] == hay[from..from + k] + [c] && ndl[..k + 1] == ndl[..k] + [d];
      SumAppend(hay[from..from + k], c);
      SumAppend(ndl[..k], d);
      hsum, nsum := Xor(hsum, Widen(c)), Xor(nsum, Widen(d));
      eqp := eqp && c == d;
      k := k + 1;
    }
  }

  lemma OneSum(c: byte)
    ensures Sum([c]) == Widen(c)
  {
    assert [c] == [] + [c];
    SumAppend([], c);
    XorNothing(Widen(c));
  }

  /** The first occurrence of the needle, or -1 if there is none. */
  method Find(hay: seq<byte>, ndl: seq<byte>) returns (r: int)
    ensures r >= 0 ==> OccursAt(hay, ndl, r) && forall k :: 0 <= k < r ==> !OccursAt(hay, ndl, k)
    ensures r >= -1 && (r < 0 <==> forall k: nat :: !OccursAt(hay, ndl, k))
  {
    if |ndl| == 0 {
      assert OccursAt(hay, ndl, 0);
      return 0;
    }
    hide *;
    var first := IndexOf(hay, ndl[0]);
    EarlierStart(hay, ndl, first);
    if first == |hay| {
      NoRoom(hay, ndl, first);
      return -1;
    }
    var n, hsum, nsum, eqp := StartSums(hay, first, ndl);
    if n < |ndl| {
      NoRoom(hay, ndl, first);
      return -1;
    }
    Whole(hay, ndl, first);
    if eqp {
      return first;
    }
    r := Roll(hay, ndl, first, hsum, nsum);
  }

  lemma Whole(hay: seq<byte>, ndl: seq<byte>, i: nat)
    requires i + |ndl| <= |hay|
    ensures ndl[..|ndl|] == ndl && (OccursAt(hay, ndl, i) <==> hay[i..i + |ndl|] == ndl)
  {
  }

  /** Moves the window on, one character in, one out; where the sums meet, it is
      enough to compare all characters but the last. */
  method Roll(hay: seq<byte>, ndl: seq<byte>, first: nat, hsum0: bv32, nsum: bv32) returns (r: int)
    requires |ndl| > 0 && first + |ndl| <= |hay|
    requires hsum0 == Sum(hay[first..first + |ndl|]) && nsum == Sum(ndl)
    requires forall k :: 0 <= k <= first ==> !OccursAt(hay, ndl, k)
    ensures r >= 0 ==> OccursAt(hay, ndl, r) && forall k :: 0 <= k < r ==> !OccursAt(hay, ndl, k)
    ensures r >= -1 && (r < 0 <==> forall k: nat :: !OccursAt(hay, ndl, k))
  {
    hide *;
    var n, hsum := |ndl|, hsum0;
    var cand, hp := first, first + n;
    while hp < |hay|
      invariant first <= cand && hp == cand + n <= |hay|
      invariant hsum == Sum(hay[cand..cand + n])
      invariant forall k :: 0 <= k <= cand ==> !OccursAt(hay, ndl, k)
    {
      Slide(hay, cand, n);
      hsum := Xor(hsum, Widen(hay[cand]));
      cand := cand + 1;
      hsum := Xor(hsum, Widen(hay[hp]));
      OccursSum(hay, ndl, cand);
      if hsum == nsum && hay[cand..cand + n - 1] == ndl[..n - 1] {
        return cand;
      }
      hp := hp + 1;
    }
    NoRoom(hay, ndl, cand + 1);
    return -1;
  }

  lemma EarlierStart(hay: seq<byte>, ndl: seq<byte>, first: nat)
    requires |ndl| > 0 && first <= |hay| && forall k :: 0 <= k < first ==> hay[k] != ndl[0]
    ensures forall k :: 0 <= k < first ==> !OccursAt(hay, ndl, k)
  {
    forall k | 0 <= k < first && k + |ndl| <= |hay| ensures !OccursAt(hay, ndl, k) {
      assert hay[k..k + |ndl|][0] == hay[k];
    }
  }

  lemma NoRoom(hay: seq<byte>, ndl: seq<byte>, first: nat)
    requires first + |ndl| > |hay| && forall k :: 0 <= k < first ==> !OccursAt(hay, ndl, k)
    ensures forall k: nat :: !OccursAt(hay, ndl, k)
  {
  }

  /** The other copy of the search points behind what it found. */
  method FindPast(hay: seq<byte>, ndl: seq<byte>) returns (r: int)
    ensures r >= 0 ==> |ndl| <= r && OccursAt(hay, ndl, r - |ndl|)
    ensures r >= 0 ==> forall k :: 0 <= k < r - |ndl| ==> !OccursAt(hay, ndl, k)
    ensures r >= -1 && (r < 0 <==> forall k: nat :: !OccursAt(hay, ndl, k))
  {
    r := Find(hay, ndl);
    if r >= 0 {
      r := r + |ndl|;
    }
  }

  // ----- texts as bytes -----

  predicate IsBytes(s: string) {
    forall i :: 0 <= i < |s| ==> s[i] as nat < 256
  }

  function Bytes(s: string): (b: seq<byte>)
    ensures |b| == |s| && forall i :: 0 <= i < |s| ==> b[i] == Byte(s[i] as nat % 256)
  {
    seq(|s|, i requires 0 <= i < |s| => Byte(s[i] as nat % 256))
  }

  lemma ByteInjective(c: char, d: char)
    requires c as nat < 256 && d as nat < 256
    ensures Byte(c as nat % 256) == Byte(d as nat % 256) <==> c == d
  {
    ByteValue(c as nat);
    ByteValue(d as nat);
  }

  /** Bytes occur where the text does. */
  lemma BytesOccur(s: string, m: string, p: nat)
    requires IsBytes(s) && IsBytes(m)
    ensures OccursAt(Bytes(s), Bytes(m), p) <==> OccursAt(s, m, p)
  {
    if p + |m| <= |s| {
      var w, b := s[p..p + |m|], Bytes(s)[p..p + |m|];
      hide Byte;
      forall i | 0 <= i < |m| ensures b[i] == Bytes(m)[i] <==> w[i] == m[i] {
        ByteInjective(s[p + i], m[i]);
      }
      if b == Bytes(m) {
        assert forall i :: 0 <= i < |m| ==> b[i] == Bytes(m)[i];
      }
    }
  }
}
