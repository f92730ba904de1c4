/** Decimal numerals as text: how they are taken apart and what they are worth. */
module Numeral {
  import opened Bcd

  predicate IsDigit(c: char) {
    '0' <= c <= '9'
  }

  function DigitOf(c: char): (d: nat)
    requires IsDigit(c)
    ensures d <= 9
  {
    c as int - '0' as int
  }

  /** The character for a digit value; values above nine get the characters after '9'. */
  function CharOf(d: nat): char
    requires d < 16
  {
    (d + '0' as int) as char
  }

  predicate AllDigits(s: string) {
    forall i :: 0 <= i < |s| ==> IsDigit(s[i])
  }

  /** The character at i of a terminated string. */
  function At(s: string, i: nat): char {
    if i < |s| then s[i] else '\0'
  }

  /** Where the run of digits from i on ends. */
  function DigitsEnd(s: string, i: nat): (e: nat)
    ensures i <= e && (i <= |s| ==> e <= |s|) && !IsDigit(At(s, e))
    ensures forall k :: i <= k < e ==> k < |s| && IsDigit(s[k])
    decreases |s| - i
  {
    if i < |s| && IsDigit(s[i]) then DigitsEnd(s, i + 1) else i
  }

  /** Where the run of zeros from i on ends. */
  function ZerosEnd(s: string, i: nat): (e: nat)
    ensures i <= e && (i <= |s| ==> e <= |s|) && At(s, e) != '0'
    ensures forall k :: i <= k < e ==> k < |s| && s[k] == '0'
    decreases |s| - i
  {
    if i < |s| && s[i] == '0' then ZerosEnd(s, i + 1) else i
  }

  lemma RunOfDigits(s: string, i: nat, e: nat)
    requires i <= |s| && e == DigitsEnd(s, i)
    ensures AllDigits(s[i..e]) && (i < e ==> s[i..e][0] == At(s, i))
  {
    forall k | 0 <= k < e - i ensures IsDigit(s[i..e][k]) {
      assert s[i..e][k] == s[i + k];
    }
  }

  /** The number a string of digits spells. */
  function Number(s: string): nat
    requires AllDigits(s)
  {
    if s == [] then 0 else Number(s[..|s| - 1]) * 10 + DigitOf(s[|s| - 1])
  }

  /** The BCD word a string of digits spells. */
  function BcdNumber(s: string): nat
    requires AllDigits(s)
  {
    if s == [] then 0 else BcdNumber(s[..|s| - 1]) * 16 + DigitOf(s[|s| - 1])
  }

  lemma BcdNumberAppend(s: string, c: char)
    requires AllDigits(s) && IsDigit(c)
    ensures BcdNumber(s + [c]) == BcdNumber(s) * 16 + DigitOf(c)
  {
    assert (s + [c])[..|s|] == s;
  }

  lemma {:induction false} BcdNumberIs(s: string)
    requires AllDigits(s)
    ensures IsBcd(BcdNumber(s)) && Val(BcdNumber(s)) == Number(s)
    ensures BcdNumber(s) < Pow16(|s|)
  {
    if s != [] {
      BcdNumberIs(s[..|s| - 1]);
      ValDigit(BcdNumber(s[..|s| - 1]), DigitOf(s[|s| - 1]));
    }
  }

  lemma {:induction false} NumberBound(s: string)
    requires AllDigits(s)
    ensures Number(s) < Pow10(|s|)
  {
    if s != [] {
      NumberBound(s[..|s| - 1]);
    }
  }

  /** Digits written one after the other. */
  lemma {:induction false} NumberConcat(s: string, t: string)
    requires AllDigits(s) && AllDigits(t)
    ensures AllDigits(s + t) && Number(s + t) == Number(s) * Pow10(|t|) + Number(t)
    decreases |t|
  {
    if t == [] {
      assert s + t == s;
      assert Number(s) * Pow10(0) == Number(s);
    } else {
      var u := t[..|t| - 1];
      NumberConcat(s, u);
      assert (s + t)[..|s + t| - 1] == s + u;
      Regroup(Number(s), 10, Pow10(|u|), Number(u), DigitOf(t[|t| - 1]));
    }
  }

  lemma {:induction false} NumberOfZeros(s: string)
    requires forall i :: 0 <= i < |s| ==> s[i] == '0'
    ensures AllDigits(s) && Number(s) == 0
  {
    if s != [] {
      NumberOfZeros(s[..|s| - 1]);
    }
  }

  /** A digit string is below half of its range exactly when it starts below 5. */
  lemma FirstDigit(s: string)
    requires AllDigits(s) && s != []
    ensures 2 * Number(s) < Pow10(|s|) <==> s[0] < '5'
  {
    var d, t := s[..1], s[1..];
    assert s == d + t;
    NumberConcat(d, t);
    NumberBound(t);
    assert Number(d) == DigitOf(s[0]) by { assert d[..0] == []; }
    assert Pow10(|s|) == 10 * Pow10(|t|);
    Leading(DigitOf(s[0]), Number(t), Pow10(|t|));
  }

  lemma Leading(d: nat, r: nat, p: nat)
    requires r < p
    ensures 2 * (d * p + r) < 10 * p <==> d < 5
  {
    if d < 5 {
      assert d * p <= 4 * p;
    } else {
      assert d * p >= 5 * p;
    }
  }

  // ----- a numeral and what is around it -----

  /** A sign, an integer part without its leading zeros, and a fraction; next is
      the first position after it all. */
  datatype Parts = Parts(neg: bool, ints: string, point: bool, fracs: string, next: nat)

  function Split(s: string): (p: Parts)
    ensures AllDigits(p.ints) && AllDigits(p.fracs) && p.next <= |s|
    ensures p.ints != [] ==> p.ints[0] != '0'
    ensures !p.point ==> p.fracs == []
  {
    var i := if At(s, 0) == '-' || At(s, 0) == '+' then 1 else 0;
    var z := ZerosEnd(s, i);
    var e := DigitsEnd(s, z);
    RunOfDigits(s, z, e);
    if At(s, e) == '.' then
      var f := DigitsEnd(s, e + 1);
      RunOfDigits(s, e + 1, f);
      Parts(At(s, 0) == '-', s[z..e], true, s[e + 1..f], f)
    else
      Parts(At(s, 0) == '-', s[z..e], false, [], e)
  }

  lemma {:induction false} DigitsEndBehind(c: char, s: string, i: nat)
    requires i <= |s|
    ensures DigitsEnd([c] + s, i + 1) == DigitsEnd(s, i) + 1
    decreases |s| - i
  {
    if i < |s| {
      DigitsEndBehind(c, s, i + 1);
    }
  }

  lemma {:induction false} ZerosEndBehind(c: char, s: string, i: nat)
    requires i <= |s|
    ensures ZerosEnd([c] + s, i + 1) == ZerosEnd(s, i) + 1
    decreases |s| - i
  {
    if i < |s| {
      ZerosEndBehind(c, s, i + 1);
    }
  }

  lemma SplitAs(s: string, z: nat, e: nat, f: nat)
    requires z == ZerosEnd(s, if At(s, 0) == '-' || At(s, 0) == '+' then 1 else 0) && e == DigitsEnd(s, z)
    requires f == if At(s, e) == '.' then DigitsEnd(s, e + 1) else e
    ensures z <= e <= f <= |s| && (At(s, e) == '.' ==> e < f)
    ensures Split(s) == Parts(At(s, 0) == '-', s[z..e], At(s, e) == '.', if At(s, e) == '.' then s[e + 1..f] else [], f)
  {
  }

  /** A sign in front of a numeral without one moves its end by one; a plus changes
      nothing else, a minus only the sign. */
  lemma SignInFront(s: string, c: char)
    requires (c == '+' || c == '-') && At(s, 0) != '+' && At(s, 0) != '-'
    ensures var p := Split(s); !p.neg && Split([c] + s) == p.(neg := c == '-', next := p.next + 1)
  {
    hide *;
    var z := ZerosEnd(s, 0);
    var e := DigitsEnd(s, z);
    var f := if At(s, e) == '.' then DigitsEnd(s, e + 1) else e;
    SplitAs(s, z, e, f);
    EndsBehind(c, s, z, e, f);
    BothAre(c, s, z, e, f);
  }

  lemma BothAre(c: char, s: string, z: nat, e: nat, f: nat)
    requires (c == '+' || c == '-') && z <= e <= f <= |s| && At(s, 0) != '-' && (At(s, e) == '.' ==> e < f)
    requires var u := [c] + s;
      && z + 1 == ZerosEnd(u, 1) && e + 1 == DigitsEnd(u, z + 1) && At(u, 0) == c && At(u, e + 1) == At(s, e)
      && f + 1 == if At(u, e + 1) == '.' then DigitsEnd(u, e + 2) else e + 1
    requires Split(s) == Parts(false, s[z..e], At(s, e) == '.', if At(s, e) == '.' then s[e + 1..f] else [], f)
    ensures var p := Split(s); Split([c] + s) == p.(neg := c == '-', next := p.next + 1)
  {
    hide *;
    SplitAs([c] + s, z + 1, e + 1, f + 1);
    SliceBehind(c, s, z, e);
    if At(s, e) == '.' {
      SliceBehind(c, s, e + 1, f);
    }
  }

  lemma EndsBehind(c: char, s: string, z: nat, e: nat, f: nat)
    requires z == ZerosEnd(s, 0) && e == DigitsEnd(s, z) && e <= |s|
    requires f == if At(s, e) == '.' then DigitsEnd(s, e + 1) else e
    ensures var u := [c] + s;
      && At(u, 0) == c && z + 1 == ZerosEnd(u, 1) && e + 1 == DigitsEnd(u, z + 1) && At(u, e + 1) == At(s, e)
      && f + 1 == if At(u, e + 1) == '.' then DigitsEnd(u, e + 2) else e + 1
  {
    AtBehind(c, s, e);
    ZerosEndBehind(c, s, 0);
    DigitsEndBehind(c, s, z);
    if At(s, e) == '.' {
      DigitsEndBehind(c, s, e + 1);
    }
    hide *;
  }

  lemma AtBehind(c: char, s: string, k: nat)
    ensures At([c] + s, 0) == c && At([c] + s, k + 1) == At(s, k)
  {
  }

  lemma SliceBehind(c: char, s: string, i: nat, j: nat)
    requires i <= j <= |s|
    ensures ([c] + s)[i + 1..j + 1] == s[i..j]
  {
  }

  /** All digits that matter, integer part first. */
  function Digits(p: Parts): string {
    p.ints + p.fracs
  }
}
