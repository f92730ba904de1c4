/** Printing a BCD coefficient and an exponent, and reading the text back. */
module Printing {
  import opened Bcd
  import opened Numeral

  // ----- the text of a decimal -----

  /** What is left of m without its k lowest digits. */
  function Shifted(m: nat, k: nat): nat {
    if k == 0 then m else Shifted(m / 10, k - 1)
  }

  lemma {:induction false} ShiftedIs(m: nat, k: nat)
    ensures Shifted(m, k) * Pow10(k) <= m < (Shifted(m, k) + 1) * Pow10(k)
  {
    if k == 0 {
      assert Pow10(0) == 1;
    } else {
      ShiftedIs(m / 10, k - 1);
      TimesTen(Shifted(m, k), 10, Pow10(k - 1));
      TimesTen(Shifted(m, k) + 1, 10, Pow10(k - 1));
    }
  }

  /** The digits of m, none for zero. */
  function Whole(m: nat): (s: string)
    ensures AllDigits(s) && (m > 0 <==> s != []) && (m > 0 ==> s[0] != '0')
  {
    if m == 0 then "" else Whole(m / 10) + [CharOf(m % 10)]
  }

  /** The k lowest digits of m. */
  function Low(m: nat, k: nat): (s: string)
    ensures |s| == k && AllDigits(s)
  {
    if k == 0 then "" else Low(m / 10, k - 1) + [CharOf(m % 10)]
  }

  function Zeros(k: nat): (s: string)
    ensures |s| == k && forall i :: 0 <= i < k ==> s[i] == '0'
  {
    if k == 0 then "" else Zeros(k - 1) + "0"
  }

  /** A decimal in plain notation: -e digits behind the point if e is negative, e
      zeros behind the coefficient otherwise. */
  function Text(neg: bool, m: nat, e: int): string {
    var k := if e < 0 then -e else 0;
    var q := Shifted(m, k);
    (if neg then "-" else "")
    + (if q == 0 then "0" else Whole(q))
    + (if e < 0 then "." + Low(m, k) else Zeros(e))
  }

  /** The text of -0.0125, and of 12000. */
  lemma TextSamples()
    ensures Text(true, 125, -4) == "-" + "0" + ("." + "0125")
    ensures Text(false, 12, 3) == "" + "12" + "000"
  {
    assert Shifted(125, 4) == 0 && Shifted(12, 0) == 12;
    LowSample();
    assert Whole(12) == "12" && Zeros(3) == "000";
    hide Shifted, Low, Whole, Zeros;
  }

  lemma LowSample()
    ensures Low(125, 4) == "0125"
  {
    assert Low(1, 2) == "01";
    assert Low(12, 3) == "012";
  }

  // ----- the same text, last character first -----

  function Backwards(s: string): (r: string)
    ensures |r| == |s| && forall i :: 0 <= i < |s| ==> r[i] == s[|s| - 1 - i]
  {
    seq(|s|, i requires 0 <= i < |s| => s[|s| - 1 - i])
  }

  lemma BackwardsConcat(s: string, t: string)
    ensures Backwards(s + t) == Backwards(t) + Backwards(s)
  {
  }

  /** The k lowest nibbles of b, lowest first. */
  function LowNibbles(b: nat, k: nat): (s: string)
    ensures |s| == k
  {
    if k == 0 then "" else [CharOf(b % 16)] + LowNibbles(b / 16, k - 1)
  }

  function AllNibbles(b: nat): string {
    if b == 0 then "" else [CharOf(b % 16)] + AllNibbles(b / 16)
  }

  function Shifted16(b: nat, k: nat): nat {
    if k == 0 then b else Shifted16(b / 16, k - 1)
  }

  /** What stands left of the point, and the sign, last character first. */
  function Head(b: nat, neg: bool): string {
    (if b == 0 then "0" else AllNibbles(b)) + (if neg then "-" else "")
  }

  function RevText(neg: bool, b: nat, e: int): string {
    if e < 0 then LowNibbles(b, -e) + "." + Head(Shifted16(b, -e), neg)
    else Zeros(e) + Head(b, neg)
  }

  lemma {:induction false} LowBackwards(m: nat, k: nat)
    ensures Backwards(LowNibbles(BcdOf(m), k)) == Low(m, k)
    ensures Shifted16(BcdOf(m), k) == BcdOf(Shifted(m, k))
  {
    if k > 0 {
      LowBackwards(m / 10, k - 1);
      BackwardsConcat([CharOf(m % 10)], LowNibbles(BcdOf(m / 10), k - 1));
      BcdOfParts(m);
    }
  }

  lemma BcdOfParts(m: nat)
    ensures BcdOf(m) / 16 == BcdOf(m / 10) && BcdOf(m) % 16 == m % 10
    ensures BcdOf(m) == 0 <==> m == 0
  {
    if m > 0 {
      BcdOfParts(m / 10);
    }
  }

  lemma {:induction false} AllBackwards(m: nat)
    ensures Backwards(AllNibbles(BcdOf(m))) == Whole(m)
  {
    BcdOfParts(m);
    if m > 0 {
      AllBackwards(m / 10);
      BackwardsConcat([CharOf(m % 10)], AllNibbles(BcdOf(m / 10)));
    }
  }

  lemma HeadBackwards(m: nat, neg: bool)
    ensures Backwards(Head(BcdOf(m), neg)) == (if neg then "-" else "") + (if m == 0 then "0" else Whole(m))
  {
    AllBackwards(m);
    BcdOfParts(m);
    BackwardsConcat(if m == 0 then "0" else AllNibbles(BcdOf(m)), if neg then "-" else "");
  }

  /** Writing nibbles from the lowest up and turning the result around gives the
      decimal in plain notation. */
  lemma RevTextBackwards(neg: bool, m: nat, e: int)
    ensures Backwards(RevText(neg, BcdOf(m), e)) == Text(neg, m, e)
  {
    if e < 0 {
      FractionBackwards(neg, m, e);
    } else {
      assert Shifted(m, 0) == m;
      hide Head, Whole, Shifted, BcdOf, Zeros, Backwards;
      HeadBackwards(m, neg);
      ZerosBackwards(e);
      BackwardsConcat(Zeros(e), Head(BcdOf(m), neg));
    }
  }

  lemma FractionBackwards(neg: bool, m: nat, e: int)
    requires e < 0
    ensures Backwards(RevText(neg, BcdOf(m), e)) == Text(neg, m, e)
  {
    var k := -e;
    hide Head, Whole, LowNibbles, Shifted, Shifted16, Low, BcdOf, Backwards;
    var q := Shifted(m, k);
    LowBackwards(m, k);
    HeadBackwards(q, neg);
    Join3(LowNibbles(BcdOf(m), k), ".", Head(BcdOf(q), neg));
    Associate(if neg then "-" else "", if q == 0 then "0" else Whole(q), ".", Low(m, k));
  }

  lemma Join3(low: string, point: string, head: string)
    requires |point| == 1
    ensures Backwards(low + point + head) == Backwards(head) + point + Backwards(low)
  {
  }

  lemma Associate(a: string, b: string, c: string, d: string)
    ensures a + b + c + d == a + b + (c + d)
  {
  }

  lemma ZerosBackwards(k: nat)
    ensures Backwards(Zeros(k)) == Zeros(k)
  {
  }

  // ----- the printer -----

  /** What of s fits. */
  function Cut(s: string, cap: nat): (r: string)
    ensures |r| <= cap
  {
    if |s| <= cap then s else s[..cap]
  }

  lemma CutCut(s: string, t: string, u: string, cap: nat)
    ensures |s| >= cap || t == u ==> Cut(Cut(s, cap) + t, cap) == Cut(s + u, cap)
  {
  }

  method PutChar(buf: array<char>, bp: nat, c: char) returns (n: nat)
    requires bp <= buf.Length
    modifies buf
    ensures n <= buf.Length && buf[..n] == Cut(old(buf[..bp]) + [c], buf.Length)
  {
    n := bp;
    if bp < buf.Length {
      buf[bp] := c;
      n := n + 1;
    }
  }

  method PutLow(buf: array<char>, bp: nat, b: nat, k: nat) returns (n: nat, rest: nat)
    requires bp <= buf.Length
    modifies buf
    ensures n <= buf.Length && buf[..n] == Cut(old(buf[..bp]) + LowNibbles(b, k), buf.Length)
    ensures |old(buf[..bp]) + LowNibbles(b, k)| <= buf.Length ==> rest == Shifted16(b, k)
  {
    n, rest := bp, b;
    var expo := 0 - k;
    while expo < 0 && n < buf.Length
      invariant n <= buf.Length && 0 - k <= expo <= 0
      invariant buf[..n] + LowNibbles(rest, -expo) == old(buf[..bp]) + LowNibbles(b, k)
      invariant Shifted16(rest, -expo) == Shifted16(b, k)
      decreases -expo
    {
      ghost var before, all := buf[..n], LowNibbles(rest, -expo);
      buf[n] := CharOf(rest % 16);
      n := n + 1;
      expo := expo + 1;
      assert buf[..n] == before + all[..1];
      rest := rest / 16;
    }
  }

  method PutZeros(buf: array<char>, bp: nat, k: nat) returns (n: nat)
    requires bp <= buf.Length
    modifies buf
    ensures n <= buf.Length && buf[..n] == Cut(old(buf[..bp]) + Zeros(k), buf.Length)
  {
    n := bp;
    var expo := k;
    while expo > 0 && n < buf.Length
      invariant n <= buf.Length && n - bp == k - expo
      invariant buf[..n] == old(buf[..bp]) + Zeros(k - expo)
    {
      buf[n] := '0';
      n := n + 1;
      expo := expo - 1;
    }
    assert Zeros(k - expo) == Zeros(k)[..k - expo];
  }

  method PutAll(buf: array<char>, bp: nat, b: nat) returns (n: nat)
    requires bp <= buf.Length
    modifies buf
    ensures n <= buf.Length && buf[..n] == Cut(old(buf[..bp]) + AllNibbles(b), buf.Length)
  {
    n := bp;
    var mant := b;
    while mant > 0 && n < buf.Length
      invariant n <= buf.Length
      invariant buf[..n] + AllNibbles(mant) == old(buf[..bp]) + AllNibbles(b)
    {
      ghost var before, all := buf[..n], AllNibbles(mant);
      buf[n] := CharOf(mant % 16);
      n := n + 1;
      assert buf[..n] == before + all[..1];
      mant := mant / 16;
    }
  }

  /** Turns the characters from at to n around. */
  method Reverse(buf: array<char>, at: nat, n: nat)
    requires at <= n <= buf.Length
    modifies buf
    ensures buf[at..n] == Backwards(old(buf[at..n])) && buf[..at] == old(buf[..at]) && buf[n..] == old(buf[n..])
  {
    ghost var was := buf[..];
    var ip, jp := at, n - 1;
    while ip < jp
      invariant at <= ip && ip + jp == at + n - 1 && ip <= jp + 2
      invariant forall k :: at <= k < ip || jp < k < n ==> buf[k] == was[at + n - 1 - k]
      invariant forall k :: ip <= k <= jp || 0 <= k < at || n <= k < buf.Length ==> buf[k] == was[k]
    {
      buf[ip], buf[jp] := buf[jp], buf[ip];
      ip := ip + 1;
      jp := jp - 1;
    }
    hide Backwards;
    Turned(was, buf[..], at, n);
    assert buf[at..n] == buf[..][at..n] && buf[..at] == buf[..][..at] && buf[n..] == buf[..][n..];
    assert was[at..n] == old(buf[at..n]) && was[..at] == old(buf[..at]) && was[n..] == old(buf[n..]);
  }

  lemma Turned(was: string, now: string, at: nat, n: nat)
    requires at <= n <= |was| == |now|
    requires forall k :: at <= k < n ==> now[k] == was[at + n - 1 - k]
    requires forall k :: 0 <= k < at || n <= k < |was| ==> now[k] == was[k]
    ensures now[at..n] == Backwards(was[at..n]) && now[..at] == was[..at] && now[n..] == was[n..]
  {
  }

  /** The printer: from at on, as much of the reversed text as the buffer holds,
      turned around, and a terminator if there is room for one. */
  method BcdToStr(buf: array<char>, at: nat, neg: bool, b: nat, e: int) returns (n: nat)
    requires at <= buf.Length
    modifies buf
    ensures at + n <= buf.Length && buf[..at] == old(buf[..at])
    ensures buf[at..at + n] == Backwards(Cut(RevText(neg, b, e), buf.Length - at))
    ensures at + n < buf.Length ==> buf[at + n] == '\0'
  {
    hide *;
    ghost var before, rev := buf[..at], RevText(neg, b, e);
    RevTextParts(neg, b, e);
    var bp, mant := PutTail(buf, at, b, e);
    var ep := PutHead(buf, bp, mant, neg, before, Tail(b, e), if e < 0 then Shifted16(b, -e) else b);
    CutBehind(before, rev, buf[..ep], buf.Length);
    assert buf[..ep][at..] == buf[at..ep] && buf[..ep][..at] == buf[..at];
    ghost var written := buf[at..ep];
    if ep < buf.Length {
      buf[ep] := '\0';
    }
    assert buf[at..ep] == written && buf[..at] == before;
    ghost var end := buf[ep..];
    Reverse(buf, at, ep);
    assert ep < buf.Length ==> buf[ep..][0] == end[0];
    n := ep - at;
  }

  lemma RevTextParts(neg: bool, b: nat, e: int)
    ensures RevText(neg, b, e) == Tail(b, e) + Head(if e < 0 then Shifted16(b, -e) else b, neg)
  {
  }

  lemma CutBehind(before: string, s: string, r: string, cap: nat)
    requires |before| <= cap && r == Cut(before + s, cap)
    ensures |before| <= |r| && r[..|before|] == before && r[|before|..] == Cut(s, cap - |before|)
  {
  }

  /** What stands right of the integer digits, last character first. */
  ghost function Tail(b: nat, e: int): string {
    if e < 0 then LowNibbles(b, -e) + "." else Zeros(e)
  }

  method PutTail(buf: array<char>, at: nat, b: nat, e: int) returns (n: nat, mant: nat)
    requires at <= buf.Length
    modifies buf
    ensures n <= buf.Length && buf[..n] == Cut(old(buf[..at]) + Tail(b, e), buf.Length)
    ensures at + |Tail(b, e)| < buf.Length ==> mant == if e < 0 then Shifted16(b, -e) else b
  {
    assert Shifted16(b, 0) == b;
    hide LowNibbles, Shifted16;
    ghost var before := buf[..at];
    n, mant := PutLow(buf, at, b, if e < 0 then -e else 0);
    ghost var low := LowNibbles(b, if e < 0 then -e else 0);
    assert buf[..n] == Cut(before + low, buf.Length);
    if n > at {
      n := PutChar(buf, n, '.');
      CutCut(before + low, ".", ".", buf.Length);
      assert before + low + "." == before + (low + ".");
    }
    if e > 0 {
      assert low == [];
      n := PutZeros(buf, n, e);
    }
  }

  method PutHead(buf: array<char>, bp: nat, mant: nat, neg: bool, ghost before: string, ghost tail: string,
      ghost rest: nat)
      returns (n: nat)
    requires bp <= buf.Length && buf[..bp] == Cut(before + tail, buf.Length)
    requires |before + tail| < buf.Length ==> mant == rest
    modifies buf
    ensures n <= buf.Length && buf[..n] == Cut(before + (tail + Head(rest, neg)), buf.Length)
  {
    ghost var body, front := if mant == 0 then "0" else AllNibbles(mant), before + tail;
    if mant > 0 {
      n := PutAll(buf, bp, mant);
    } else {
      n := PutChar(buf, bp, '0');
    }
    hide Cut;
    CutCut(front, body, body, buf.Length);
    if neg {
      n := PutChar(buf, n, '-');
      CutCut(front + body, "-", "-", buf.Length);
    }
    HeadCut(before, tail, body, mant, rest, neg, buf.Length);
  }

  lemma HeadCut(before: string, tail: string, body: string, mant: nat, rest: nat, neg: bool, cap: nat)
    requires |before + tail| < cap ==> mant == rest
    requires body == if mant == 0 then "0" else AllNibbles(mant)
    ensures Cut(before + (tail + Head(rest, neg)), cap) == Cut(before + tail + body + if neg then "-" else "", cap)
  {
    var front, sign := before + tail, if neg then "-" else "";
    assert Head(mant, neg) == body + sign;
    hide Head, AllNibbles;
    Associate(before, tail, body, sign);
    assert before + (tail + Head(rest, neg)) == front + Head(rest, neg);
    hide Cut;
    CutCut(front, Head(mant, neg), Head(rest, neg), cap);
    CutCut(front, Head(mant, neg), Head(mant, neg), cap);
  }
}
