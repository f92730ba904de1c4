/** Version stamps: vTAG-DISTANCE-gHASH-dirty, and the notation with dots. */
module Version {
  import opened Bcd
  import opened Fields
  import opened Numeral
  import opened Printing
  import opened Words
  import ReadBack
  import Search

  datatype Scm = Tarball | Git | Bzr | Hg

  /** A version: rvsn holds up to seven hexadecimal digits and, in its lowest four
      bits, how many. */
  datatype Stamp = Stamp(scm: Scm, dirty: bool, vtag: string, dist: nat, rvsn: nat)

  const BLANK := Stamp(Tarball, false, "", 0, 0)

  // ----- hexadecimal digits -----

  predicate IsHex(c: char) {
    '0' <= c <= '9' || 'a' <= c <= 'f' || 'A' <= c <= 'F'
  }

  function HexDigit(c: char): (d: nat)
    requires IsHex(c)
    ensures d < 16
  {
    if '0' <= c <= '9' then c as int - '0' as int
    else if 'a' <= c <= 'f' then c as int - 'a' as int + 10
    else c as int - 'A' as int + 10
  }

  function HexChar(d: nat): (c: char)
    requires d < 16
    ensures IsHex(c) && HexDigit(c) == d
  {
    if d < 10 then (d + '0' as int) as char else (d - 10 + 'a' as int) as char
  }

  predicate AllHex(s: string) {
    forall i :: 0 <= i < |s| ==> IsHex(s[i])
  }

  function HexValue(s: string): nat
    requires AllHex(s)
  {
    if s == "" then 0 else HexValue(s[..|s| - 1]) * 16 + HexDigit(s[|s| - 1])
  }

  /** How many hexadecimal digits stand at the front. */
  function HexRun(s: string): (k: nat)
    ensures k <= |s| && AllHex(s[..k]) && !IsHex(At(s, k))
  {
    if s != "" && IsHex(s[0]) then 1 + HexRun(s[1..]) else 0
  }

  /** At most seven of them are taken, and their number. */
  function HexToUint(s: string): nat {
    var k := if HexRun(s) > 7 then 7 else HexRun(s);
    HexValue(s[..k]) * 16 + k
  }

  method HexToU(s: string) returns (res: nat, rest: string)
    ensures res == HexToUint(s) && rest == s[HexRun(s)..] && res < TWO32
  {
    if |s| == 0 {
      return 0, s;
    }
    hide *;
    var i;
    res, i := TakeHex(s);
    TakenRun(s, i);
    SevenDigits(i);
    res := res * 16 + i;
    var sp := SkipHex(s, i);
    rest := s[sp..];
  }

  method TakeHex(s: string) returns (res: nat, i: nat)
    ensures i <= 7 && i <= |s| && AllHex(s[..i]) && (i == 7 || !IsHex(At(s, i)))
    ensures res == HexValue(s[..i]) && res < Pow16(i) && HexRun(s) == i + HexRun(s[i..])
  {
    hide IsHex, HexRun, HexValue, Pow16;
    res := 0;
    i := 0;
    StartOfRun(s);
    while i < 7 && IsHex(At(s, i))
      invariant i <= 7 && i <= |s| && AllHex(s[..i])
      invariant res == HexValue(s[..i]) && res < Pow16(i)
      invariant HexRun(s) == i + HexRun(s[i..])
    {
      OneMore(s, i);
      res := res * 16 + HexDigit(s[i]);
      i := i + 1;
    }
  }

  lemma TakenRun(s: string, i: nat)
    requires i <= 7 && i <= |s| && (i == 7 || !IsHex(At(s, i))) && HexRun(s) == i + HexRun(s[i..])
    ensures i == if HexRun(s) > 7 then 7 else HexRun(s)
  {
    NoMore(s, i);
  }

  method SkipHex(s: string, i: nat) returns (sp: nat)
    requires i <= |s| && HexRun(s) == i + HexRun(s[i..])
    ensures sp == HexRun(s)
  {
    hide IsHex, HexRun;
    sp := i;
    while IsHex(At(s, sp))
      invariant i <= sp <= |s| && HexRun(s) == sp + HexRun(s[sp..])
      decreases |s| - sp
    {
      OneMore(s, sp);
      sp := sp + 1;
    }
    NoMore(s, sp);
  }

  lemma StartOfRun(s: string)
    ensures s[..0] == "" && HexValue("") == 0 && Pow16(0) == 1 && s[0..] == s
  {
  }

  lemma OneMore(s: string, i: nat)
    requires i <= |s| && IsHex(At(s, i))
    ensures i < |s| && HexRun(s[i..]) == 1 + HexRun(s[i + 1..]) && Pow16(i + 1) == 16 * Pow16(i)
    ensures AllHex(s[..i]) ==> AllHex(s[..i + 1]) && HexValue(s[..i + 1]) == HexValue(s[..i]) * 16 + HexDigit(s[i])
  {
    assert s[i..][1..] == s[i + 1..];
    assert s[..i + 1][..i] == s[..i];
  }

  lemma NoMore(s: string, i: nat)
    requires i <= |s|
    ensures !IsHex(At(s, i)) ==> HexRun(s[i..]) == 0
  {
  }

  lemma {:induction false} SevenDigits(k: nat)
    requires k <= 7
    ensures Pow16(k) <= 0x1000_0000
    decreases 7 - k
  {
    if k < 7 {
      SevenDigits(k + 1);
    } else {
      assert Pow16(4) == 0x1_0000;
    }
  }

  /** Ten to fifteen are letters, small or large. */
  lemma HexLetters(d: nat)
    requires d < 6
    ensures var c, e := ('A' as int + d) as char, ('a' as int + d) as char;
      IsHex(c) && IsHex(e) && HexDigit(c) == 10 + d == HexDigit(e)
  {
    var n := 'A' as int + d;
    assert n as char as int == n;
  }

  /** The value of digits in small and in large letters. */
  lemma HexSample()
    ensures AllHex("0aBf") && HexValue("0aBf") == 0xabf
    ensures !IsHex('g') && !IsHex('G') && !IsHex('.') && !IsHex('-')
  {
    assert "0aBf"[..3] == "0aB" && "0aB"[..2] == "0a" && "0a"[..1] == "0" && "0"[..0] == "";
    assert HexValue("0a") == 0xa && HexValue("0aB") == 0xab;
  }

  /** Of a run of hexadecimal digits the first seven count, in either case of
      letters, and the number of those that do stands below them. */
  lemma HexToUintIs(w: string, rest: string)
    requires AllHex(w) && !IsHex(At(rest, 0))
    ensures |w| <= 7 ==> HexToUint(w + rest) == HexValue(w) * 16 + |w|
    ensures |w| > 7 ==> HexToUint(w + rest) == HexValue(w[..7]) * 16 + 7
  {
    RunOf(w, rest);
    assert |w| <= 7 ==> (w + rest)[..|w|] == w;
    assert |w| > 7 ==> (w + rest)[..7] == w[..7];
    hide HexRun, HexValue, IsHex;
  }

  /** x in k hexadecimal digits, its lowest ones if it has more. */
  function Fixed(x: nat, k: nat): (s: string)
    ensures |s| == k && AllHex(s)
  {
    if k == 0 then "" else Fixed(x / 16, k - 1) + [HexChar(x % 16)]
  }

  /** x in as many digits as it needs. */
  function Minimal(x: nat): (s: string)
    ensures |s| > 0 && AllHex(s)
  {
    if x < 16 then [HexChar(x)] else Minimal(x / 16) + [HexChar(x % 16)]
  }

  /** Printed with zeros in front up to a width. */
  function Padded(x: nat, width: nat): string {
    var s := Minimal(x);
    if |s| < width then Zeros(width - |s|) + s else s
  }

  lemma {:induction false} MinimalFits(x: nat, k: nat)
    requires x < Pow16(k) && k > 0
    ensures |Minimal(x)| <= k && Fixed(x, k) == Zeros(k - |Minimal(x)|) + Minimal(x)
    decreases k
  {
    if x < 16 {
      FixedSmall(x, k);
    } else {
      assert k > 1 by { assert Pow16(1) == 16; }
      MinimalFits(x / 16, k - 1);
      var z, m := Zeros(k - |Minimal(x)|), Minimal(x / 16);
      assert z + m + [HexChar(x % 16)] == z + (m + [HexChar(x % 16)]);
    }
  }

  lemma {:induction false} FixedSmall(x: nat, k: nat)
    requires x < 16 && k > 0
    ensures Fixed(x, k) == Zeros(k - 1) + [HexChar(x)]
  {
    FixedZero(k - 1);
  }

  lemma {:induction false} FixedZero(k: nat)
    ensures Fixed(0, k) == Zeros(k)
  {
    if k > 0 {
      FixedZero(k - 1);
    }
  }

  lemma PaddedIsFixed(x: nat, k: nat)
    requires x < Pow16(k) && k > 0
    ensures Padded(x, k) == Fixed(x, k)
  {
    MinimalFits(x, k);
    if |Minimal(x)| == k {
      assert Zeros(0) + Minimal(x) == Minimal(x);
    }
  }

  lemma {:induction false} FixedValue(x: nat, k: nat)
    requires x < Pow16(k)
    ensures HexValue(Fixed(x, k)) == x
  {
    if k > 0 {
      FixedValue(x / 16, k - 1);
      assert Fixed(x, k)[..k - 1] == Fixed(x / 16, k - 1);
    }
  }

  lemma {:induction false} RunOf(w: string, rest: string)
    requires AllHex(w) && !IsHex(At(rest, 0))
    ensures HexRun(w + rest) == |w|
    decreases |w|
  {
    if w == "" {
      assert w + rest == rest;
    } else {
      RunOf(w[1..], rest);
      assert (w + rest)[1..] == w[1..] + rest;
    }
  }

  /** A revision as it can come from a hash: up to seven digits. */
  predicate WellFormed(rvsn: nat) {
    var k := rvsn % 16;
    0 < k <= 7 && rvsn / 16 < Pow16(k)
  }

  function Hash(rvsn: nat): string {
    Padded(rvsn / 16, rvsn % 8)
  }

  /** A printed revision is read back and the text behind it is left. */
  lemma HashBack(rvsn: nat, rest: string)
    requires WellFormed(rvsn) && !IsHex(At(rest, 0))
    ensures AllHex(Hash(rvsn)) && 0 < |Hash(rvsn)| <= 7
    ensures var s := Hash(rvsn) + rest; HexToUint(s) == rvsn && HexRun(s) == |Hash(rvsn)| && s[HexRun(s)..] == rest
  {
    var k, x := rvsn % 16, rvsn / 16;
    CountAndDigits(rvsn);
    hide Fixed, Padded, HexRun, HexToUint, Pow16, IsHex;
    PaddedIsFixed(x, k);
    FixedBack(x, k, rest);
  }

  lemma CountAndDigits(rvsn: nat)
    requires rvsn % 16 <= 7
    ensures rvsn % 8 == rvsn % 16 && rvsn == rvsn / 16 * 16 + rvsn % 16
  {
  }

  lemma FixedBack(x: nat, k: nat, rest: string)
    requires 0 < k <= 7 && x < Pow16(k) && !IsHex(At(rest, 0))
    ensures var s := Fixed(x, k) + rest; HexToUint(s) == x * 16 + k && HexRun(s) == k && s[k..] == rest
  {
    var w := Fixed(x, k);
    RunOf(w, rest);
    FixedValue(x, k);
    hide Fixed, HexRun, HexValue, Pow16;
    assert (w + rest)[..k] == w && (w + rest)[k..] == rest;
  }

  // ----- writing -----

  function Abbreviation(scm: Scm): char {
    match scm
    case Tarball => 't'
    case Git => 'g'
    case Bzr => 'b'
    case Hg => 'h'
  }

  function RevisionText(v: Stamp): string {
    "-" + [Abbreviation(v.scm)] + Hash(v.rvsn) + if v.dirty then "-dirty" else ""
  }

  /** Whether the revision is printed at all. */
  predicate HasRevision(v: Stamp) {
    v.dist != 0 && v.rvsn != 0 && v.scm != Tarball
  }

  function StampText(v: Stamp): string {
    "v" + v.vtag
    + (if v.dist == 0 then "" else "-" + DecimalText(v.dist) + if HasRevision(v) then RevisionText(v) else "")
  }

  /** A stamp with everything in it: v0.2.1-5-g0ab-dirty. */
  lemma StampSample()
    ensures StampText(Stamp(Git, true, "0.2.1", 5, 0xab3))
      == "v" + "0.2.1" + ("-" + "5" + ("-" + "g" + "0ab" + "-dirty"))
  {
    HashSample();
    assert DecimalText(5) == "5" && [Abbreviation(Git)] == "g";
    hide Hash, DecimalText, Abbreviation;
  }

  lemma HashSample()
    ensures Hash(0xab3) == "0ab"
  {
    assert 0xab3 / 16 == 0xab && 0xab3 % 8 == 3;
    assert Minimal(0xab) == "ab" && Zeros(1) == "0";
  }

  /** When one of the writer's checks finds the buffer too small; the one before the
      hash reserves eight characters for it. */
  predicate Refused(bsz: nat, v: Stamp) {
    bsz == 0 ||
    (v.dist != 0 &&
     (|v.vtag| + 2 >= bsz ||
      (HasRevision(v) &&
       (|v.vtag| + |DecimalText(v.dist)| + 12 >= bsz || (v.dirty && |StampText(v)| >= bsz)))))
  }

  /** What a buffer holds of a stamp that is not refused: all of it if there is room
      for a terminator, or if a bare tag just fits without one; else as much as
      leaves room for one, but the v in any case. */
  function Held(bsz: nat, v: Stamp): string
    requires bsz > 0
  {
    var t := StampText(v);
    if |t| < bsz || (v.dist == 0 && |t| == bsz) then t
    else if bsz == 1 then "v"
    else t[..bsz - 1]
  }

  lemma TagHeld(bsz: nat, v: Stamp)
    requires bsz > 0
    ensures v.dist == 0 ==> !Refused(bsz, v) && Held(bsz, v) == "v" + Copied(v.vtag, bsz - 1)
    ensures v.dist != 0 && |"v" + Copied(v.vtag, bsz - 1)| + 1 >= bsz ==> Refused(bsz, v)
    ensures |"v" + Copied(v.vtag, bsz - 1)| + 1 < bsz ==> Copied(v.vtag, bsz - 1) == v.vtag
  {
    hide DecimalText, RevisionText;
    assert v.dist == 0 ==> StampText(v) == "v" + v.vtag;
  }

  lemma NumberHeld(bsz: nat, v: Stamp)
    requires v.dist != 0 && |v.vtag| + 2 < bsz
    ensures var head, n := "v" + v.vtag + "-", DecimalText(v.dist);
      && (!HasRevision(v) ==> !Refused(bsz, v) && Held(bsz, v) == head + Snprintf(n, bsz - |head|))
      && (!HasRevision(v) ==> |StampText(v)| == |head| + |n|)
      && (HasRevision(v) && |head| + |n| + 10 >= bsz ==> Refused(bsz, v))
      && (|n| + |head| + 10 < bsz ==> Snprintf(n, bsz - |head|) == n)
  {
    hide DecimalText, RevisionText;
    assert !HasRevision(v) ==> StampText(v) == "v" + v.vtag + "-" + DecimalText(v.dist);
  }

  lemma RevisionHeld(bsz: nat, v: Stamp)
    requires HasRevision(v) && |v.vtag| + |DecimalText(v.dist)| + 12 < bsz && |Hash(v.rvsn)| <= 7
    ensures var t := "v" + v.vtag + "-" + DecimalText(v.dist) + "-" + [Abbreviation(v.scm)] + Hash(v.rvsn);
      && (!v.dirty ==> !Refused(bsz, v) && StampText(v) == t == Held(bsz, v))
      && (v.dirty ==> (Refused(bsz, v) <==> |t| + 6 >= bsz) && StampText(v) == t + "-dirty")
      && (v.dirty && |t| + 6 < bsz ==> Held(bsz, v) == StampText(v))
  {
    hide DecimalText, Hash, Abbreviation;
    TextJoined(v);
  }

  lemma TextJoined(v: Stamp)
    requires HasRevision(v)
    ensures StampText(v) == "v" + v.vtag + "-" + DecimalText(v.dist) + "-" + [Abbreviation(v.scm)] + Hash(v.rvsn)
      + if v.dirty then "-dirty" else ""
  {
    hide DecimalText, Hash, Abbreviation;
    var a, n, h, d := "v" + v.vtag, DecimalText(v.dist), "-" + [Abbreviation(v.scm)] + Hash(v.rvsn),
      if v.dirty then "-dirty" else "";
    assert a + ("-" + n + (h + d)) == a + "-" + n + h + d;
    assert a + "-" + n + h == a + "-" + n + "-" + [Abbreviation(v.scm)] + Hash(v.rvsn);
  }

  /** The writer: -1 exactly where one of its checks finds too little room, and
      otherwise the length of what the buffer holds, or of the whole text if its
      number of commits was cut. */
  method WriteStamp(bsz: nat, v: Stamp) returns (n: int, buf: string)
    requires |v.vtag| <= 15 && v.dist < TWO32 && (v.rvsn == 0 || WellFormed(v.rvsn))
    ensures Refused(bsz, v) ==> n == -1
    ensures !Refused(bsz, v) ==> buf == Held(bsz, v) && n == if v.dist == 0 then |buf| else |StampText(v)|
    ensures bsz >= 64 ==> !Refused(bsz, v) && buf == StampText(v)
  {
    if bsz == 0 {
      return -1, "";
    }
    ShortTexts(v);
    RoomEnough(bsz, v);
    hide WellFormed, Hash, DecimalText, StampText, Held, Refused, Copied, Snprintf, Abbreviation;
    TagHeld(bsz, v);
    buf := "v";
    buf := buf + Copied(v.vtag, bsz - 1);
    n := |buf|;
    if v.dist == 0 {
      return n, buf;
    } else if n + 1 >= bsz {
      return -1, buf;
    }
    NumberHeld(bsz, v);
    buf := buf + "-";
    n := n + 1;
    buf := buf + Snprintf(DecimalText(v.dist), bsz - n);
    n := n + |DecimalText(v.dist)|;
    if v.rvsn == 0 || v.scm == Tarball {
      return n, buf;
    } else if n + 2 + 8 >= bsz {
      return -1, buf;
    }
    RevisionHeld(bsz, v);
    ShortPrinted(Hash(v.rvsn), bsz - n - 2);
    buf := buf + "-" + [Abbreviation(v.scm)];
    n := n + 2;
    buf := buf + Snprintf(Hash(v.rvsn), bsz - n);
    n := n + |Hash(v.rvsn)|;
    if !v.dirty {
      return n, buf;
    } else if n + 1 + 5 >= bsz {
      return -1, buf;
    }
    ShortPrinted("-dirty", bsz - n);
    buf := buf + Copied("-dirty", bsz - n);
    n := n + 6;
  }

  lemma ShortPrinted(s: string, size: nat)
    requires |s| < size
    ensures Snprintf(s, size) == s == Copied(s, size)
  {
  }

  /** Sixty-four characters are enough. */
  lemma RoomEnough(bsz: nat, v: Stamp)
    requires |v.vtag| <= 15 && |DecimalText(v.dist)| <= 10 && (v.rvsn != 0 ==> |Hash(v.rvsn)| <= 7)
    ensures bsz >= 64 ==> !Refused(bsz, v) && Held(bsz, v) == StampText(v)
  {
    hide Hash, DecimalText;
  }

  /** What printing leaves in a buffer, a place being kept for the terminator. */
  function Snprintf(s: string, size: nat): string {
    if |s| < size then s else if size == 0 then "" else s[..size - 1]
  }

  /** The library's own string copy, which cuts a source longer than the target. */
  function Copied(s: string, size: nat): string {
    if size == 0 then "" else if |s| > size then s[..size - 1] else s
  }

  lemma ShortTexts(v: Stamp)
    requires v.dist < TWO32 && (v.rvsn == 0 || WellFormed(v.rvsn))
    ensures |DecimalText(v.dist)| <= 10 && (v.rvsn != 0 ==> |Hash(v.rvsn)| <= 7)
  {
    DecimalLength(v.dist);
    if v.rvsn != 0 {
      HashBack(v.rvsn, "");
    }
  }

  lemma DecimalLength(n: nat)
    requires n < TWO32
    ensures |DecimalText(n)| <= 10
  {
    assert Pow10(5) == 10_0000;
    assert Pow10(10) == 100_0000_0000;
    ReadBack.WholeLength(n, 10);
  }

  // ----- searching for a marker -----

  predicate StartsWith(s: string, m: string) {
    |m| <= |s| && s[..|m|] == m
  }

  /** The first place where m stands in s, or -1. */
  function IndexOf(s: string, m: string): (r: int)
    ensures -1 <= r <= |s|
    decreases |s|
  {
    if StartsWith(s, m) then 0 else if s == "" then -1
    else var r := IndexOf(s[1..], m); if r < 0 then -1 else r + 1
  }

  /** The names of systems as they mark a distance. */
  const GIT := ".git"
  const BZR := ".bzr"
  const HG := ".hg"

  function Mark(scm: Scm): string
    requires scm != Tarball
  {
    match scm
    case Git => GIT
    case Bzr => BZR
    case Hg => HG
  }

  /** A mark starts with its only dot. */
  predicate IsMark(m: string) {
    m == GIT || m == BZR || m == HG
  }

  predicate NoDot(s: string) {
    forall i :: 0 <= i < |s| ==> s[i] != '.'
  }

  /** Passing over text in which no mark starts. */
  lemma {:induction false} SkipOver(a: string, t: string, m: string)
    requires m != "" && forall p :: 0 <= p < |a| ==> !StartsWith((a + t)[p..], m)
    ensures IndexOf(a + t, m) == if IndexOf(t, m) < 0 then -1 else IndexOf(t, m) + |a|
    decreases |a|
  {
    if a == "" {
      assert a + t == t;
    } else {
      var s := a + t;
      assert s[0..] == s;
      assert s[1..] == a[1..] + t;
      forall p | 0 <= p < |a[1..]| ensures !StartsWith((a[1..] + t)[p..], m) {
        assert (a[1..] + t)[p..] == s[p + 1..];
      }
      SkipOver(a[1..], t, m);
    }
  }

  lemma SkipNoDot(a: string, t: string, m: string)
    requires IsMark(m) && NoDot(a)
    ensures IndexOf(a + t, m) == if IndexOf(t, m) < 0 then -1 else IndexOf(t, m) + |a|
  {
    forall p | 0 <= p < |a| ensures !StartsWith((a + t)[p..], m) {
      assert (a + t)[p..][0] == a[p];
    }
    SkipOver(a, t, m);
  }

  lemma NoMarkIn(a: string, m: string)
    requires IsMark(m) && NoDot(a)
    ensures IndexOf(a, m) == -1
  {
    SkipNoDot(a, "", m);
    assert a + "" == a;
  }

  lemma {:induction false} NowhereIn(s: string, m: string, p: nat)
    requires IndexOf(s, m) < 0 && p <= |s|
    ensures !StartsWith(s[p..], m)
    decreases p
  {
    if p == 0 {
      assert s[0..] == s;
    } else {
      NowhereIn(s[1..], m, p - 1);
      assert s[1..][p - 1..] == s[p..];
    }
  }

  /** Passing over a tag without marks: none starts in it and ends behind it, since
      a dot or a dash follows. */
  lemma SkipTag(tag: string, t: string, m: string)
    requires IsMark(m) && IndexOf(tag, m) < 0
    requires t == "" || t[0] == '.' || t[0] == '-'
    ensures IndexOf(tag + t, m) == if IndexOf(t, m) < 0 then -1 else IndexOf(t, m) + |tag|
  {
    var s := tag + t;
    forall p | 0 <= p < |tag| ensures !StartsWith(s[p..], m) {
      NowhereIn(tag, m, p);
      NotAcross(tag, t, m, p);
    }
    SkipOver(tag, t, m);
  }

  lemma NotAcross(tag: string, t: string, m: string, p: nat)
    requires IsMark(m) && p < |tag| && !StartsWith(tag[p..], m)
    requires t == "" || t[0] == '.' || t[0] == '-'
    ensures !StartsWith((tag + t)[p..], m)
  {
    var u := (tag + t)[p..];
    if p + |m| <= |tag| {
      assert u[..|m|] == tag[p..][..|m|];
    } else if |m| <= |u| {
      assert u[..|m|][|tag| - p] == t[0];
    }
  }

  // ----- reading -----

  /** What reading answers, and the record as it leaves it. */
  datatype Outcome = Outcome(rc: int, v: Stamp)

  /** The library's unsigned conversion with base 10. */
  function StrToUl10(s: string): (nat, string) {
    var t := SkipSpaces(s);
    var neg := At(t, 0) == '-';
    var u := if At(t, 0) == '-' || At(t, 0) == '+' then t[1..] else t;
    if DigitIn(At(u, 0), 10) < 0 then (0, s)
    else
      var (v, rest) := ReadBase(u, 10, 0);
      (Limit(neg, v), rest)
  }

  predicate IsDirty(s: string) {
    |s| >= 6 && (s[0] == '-' || s[0] == '.') && s[1..6] == "dirty"
  }

  /** The system a letter in front of the hash stands for; a b may as well be the
      first digit of the hash if the system is known already. */
  function SystemOf(known: Scm, c: char): Scm {
    if c == 'g' then Git else if c == 'h' then Hg else if c == 'b' && known == Tarball then Bzr else known
  }

  predicate IsPrefix(known: Scm, c: char) {
    c == 'g' || c == 'h' || (c == 'b' && known == Tarball)
  }

  function ReadRevision(v: Stamp, s: string): Outcome {
    var scm := SystemOf(v.scm, At(s, 0));
    if scm == Tarball then Outcome(0, v)
    else
      var h := if IsPrefix(v.scm, At(s, 0)) then s[1..] else s;
      Outcome(0, v.(scm := scm, rvsn := HexToUint(h), dirty := IsDirty(h[HexRun(h)..])))
  }

  function ReadDistance(v: Stamp, s: string): Outcome {
    var (d, rest) := StrToUl10(s);
    var w := v.(dist := d % TWO32);
    if At(rest, 0) != '.' && At(rest, 0) != '-' then Outcome(0, w)
    else if At(rest, 0) == '.' && v.scm == Tarball then Outcome(-1, w)
    else ReadRevision(w, rest[1..])
  }

  /** The first system, in this order, whose mark the text bears, and where. */
  function FindMark(t: string): (r: (Scm, int))
    ensures r.0 != Tarball ==> 0 <= r.1 && r.1 + |Mark(r.0)| <= |t|
  {
    IndexFits(t, GIT);
    IndexFits(t, BZR);
    IndexFits(t, HG);
    if IndexOf(t, GIT) >= 0 then (Git, IndexOf(t, GIT))
    else if IndexOf(t, BZR) >= 0 then (Bzr, IndexOf(t, BZR))
    else if IndexOf(t, HG) >= 0 then (Hg, IndexOf(t, HG))
    else (Tarball, -1)
  }

  lemma {:induction false} IndexFits(s: string, m: string)
    ensures IndexOf(s, m) >= 0 ==> IndexOf(s, m) + |m| <= |s|
    decreases |s|
  {
    if !StartsWith(s, m) && s != "" {
      IndexFits(s[1..], m);
    }
  }

  /** A tag goes into sixteen characters; one of exactly sixteen loses its
      terminator. */
  function Stored(tag: string): string {
    Copied(tag, 16)
  }

  predicate IsTagStart(c: char) {
    c == 'v' || c == 'V' || '0' <= c <= '9'
  }

  function TagText(s: string): string
    requires s != ""
  {
    if s[0] == 'v' || s[0] == 'V' then s[1..] else s
  }

  function ReadStamp(s: string): Outcome {
    if !IsTagStart(At(s, 0)) then Outcome(-1, BLANK) else ReadTagged(TagText(s))
  }

  function ReadTagged(t: string): Outcome {
    var (scm, p) := FindMark(t);
    if scm != Tarball then ReadDistance(BLANK.(scm := scm, vtag := Stored(t[..p])), t[p + |Mark(scm)|..])
    else
      var d := IndexOf(t, "-");
      IndexFits(t, "-");
      if d < 0 then Outcome(0, BLANK.(vtag := Stored(t)))
      else ReadDistance(BLANK.(vtag := Stored(t[..d])), t[d + 1..])
  }

  /** Whether m stands somewhere in t. */
  ghost predicate Bears(t: string, m: string) {
    exists k: nat :: k <= |t| && StartsWith(t[k..], m)
  }

  lemma {:induction false} IndexOfFirst(t: string, m: string)
    ensures IndexOf(t, m) >= 0 <==> Bears(t, m)
    ensures var r := IndexOf(t, m); r >= 0 ==> StartsWith(t[r..], m)
    ensures forall k: nat :: k < IndexOf(t, m) ==> !StartsWith(t[k..], m)
    decreases |t|
  {
    assert t[0..] == t;
    if !StartsWith(t, m) && t != "" {
      IndexOfFirst(t[1..], m);
      hide StartsWith;
      forall k: nat | 0 < k <= |t| ensures t[k..] == t[1..][k - 1..] {
      }
      forall k: nat | Bears(t[1..], m) && k <= |t[1..]| && StartsWith(t[1..][k..], m) ensures Bears(t, m) {
        assert StartsWith(t[k + 1..], m);
      }
    }
  }

  /** The mark of git goes before that of bzr and that before the one of hg,
      wherever they stand, and of several the first one counts. */
  lemma MarkFirst(t: string)
    ensures var (scm, p) := FindMark(t);
      && (scm == Git <==> Bears(t, ".git"))
      && (scm == Bzr <==> Bears(t, ".bzr") && !Bears(t, ".git"))
      && (scm == Hg <==> Bears(t, ".hg") && !Bears(t, ".git") && !Bears(t, ".bzr"))
      && (scm != Tarball ==>
        var m := if scm == Git then ".git" else if scm == Bzr then ".bzr" else ".hg";
        StartsWith(t[p..], m) && forall k: nat :: k < p ==> !StartsWith(t[k..], m))
  {
    IndexOfFirst(t, ".git");
    IndexOfFirst(t, ".bzr");
    IndexOfFirst(t, ".hg");
    hide Bears, StartsWith, IndexOf;
  }

  /** Of a tag as many characters are kept as there is room for: sixteen, or fifteen
      of a longer one. */
  lemma TagCut(tag: string)
    ensures |tag| <= 16 ==> Stored(tag) == tag
    ensures |tag| > 16 ==> Stored(tag) == tag[..15]
  {
  }

  /** The letter in front of the hash decides, also against a mark that came before;
      but a b is a digit of the hash once the system is known. */
  lemma LetterDecides(v: Stamp, h: string)
    ensures var r := ReadRevision(v, "g" + h); r.rc == 0 && r.v.scm == Git && r.v.rvsn == HexToUint(h)
    ensures var r := ReadRevision(v, "h" + h); r.rc == 0 && r.v.scm == Hg && r.v.rvsn == HexToUint(h)
    ensures var r := ReadRevision(v, "b" + h);
      r.rc == 0 && if v.scm == Tarball then r.v.scm == Bzr && r.v.rvsn == HexToUint(h)
      else r.v.scm == v.scm && r.v.rvsn == HexToUint("b" + h)
  {
    assert ("g" + h)[1..] == h && ("h" + h)[1..] == h && ("b" + h)[1..] == h;
    hide HexToUint, HexRun, IsDirty;
  }

  /** A stamp is dirty if the word stands right behind the hash, after a dash or a
      dot, whatever follows. */
  lemma DirtyIs(s: string)
    ensures IsDirty(s) <==> StartsWith(s, "-dirty") || StartsWith(s, ".dirty")
  {
    if |s| >= 6 {
      assert s[..6] == [s[0]] + s[1..6];
      assert "-dirty" == ['-'] + "dirty" && ".dirty" == ['.'] + "dirty";
      assert s[..6] == "-dirty" ==> s[1..6] == "-dirty"[1..];
      assert s[..6] == ".dirty" ==> s[1..6] == ".dirty"[1..];
    }
  }

  // ----- reading what was written -----

  lemma StrToUl10Back(n: nat, rest: string)
    requires !IsDigit(At(rest, 0))
    ensures StrToUl10(DecimalText(n) + rest) == (if n > MAX then MAX else n, rest)
  {
    var s := DecimalText(n) + rest;
    FrontOf(n, rest);
    assert SkipSpaces(s) == s;
    hide SkipSpaces;
    if n == 0 {
      ReadBaseDigits("0", rest, 0);
      assert Fold(0, "0") == Fold(0, "");
    } else {
      FoldWhole(n);
      hide Whole;
      ReadBaseDigits(Whole(n), rest, 0);
    }
  }

  /** Blanks and a sign may stand in front of the distance, and zeros do not change
      its base. */
  lemma DistanceSamples()
    ensures StrToUl10(" \t+042.") == (42, ".") && StrToUl10("0x2A") == (0, "x2A") && StrToUl10("g1") == (0, "g1")
    ensures StrToUl10("-1") == (MAX, "")
  {
    assert " \t+042."[1..] == "\t+042." && "\t+042."[1..] == "+042." && "+042."[1..] == "042.";
    assert "042."[1..] == "42." && "42."[1..] == "2." && "2."[1..] == ".";
    assert "0x2A"[1..] == "x2A" && "-1"[1..] == "1" && "1"[1..] == "";
    assert ReadBase("2.", 10, 4) == (42, ".") && ReadBase("42.", 10, 0) == (42, ".");
  }

  /** Of a distance the low 32 bits are kept, of one beyond 64 bits those of the
      largest number. */
  lemma DistanceWraps(v: Stamp, n: nat)
    ensures ReadDistance(v, DecimalText(n)) == Outcome(0, v.(dist := if n > MAX then TWO32 - 1 else n % TWO32))
  {
    hide StrToUl10, DecimalText;
    StrToUl10Back(n, "");
    assert DecimalText(n) + "" == DecimalText(n);
  }

  function Dirt(v: Stamp, mark: string): string {
    if v.dirty then mark else ""
  }

  lemma DirtBack(v: Stamp, sep: char)
    requires sep == '-' || sep == '.'
    ensures var d := Dirt(v, [sep] + "dirty"); !IsHex(At(d, 0)) && (IsDirty(d) <==> v.dirty)
  {
    assert ([sep] + "dirty")[1..6] == "dirty";
  }

  /** A revision behind its letter, or without one where the system is known. */
  lemma RevisionBack(v: Stamp, known: Stamp, letter: string, sep: char)
    requires WellFormed(v.rvsn) && v.scm != Tarball && (sep == '-' || sep == '.')
    requires known.vtag == v.vtag && known.dist == v.dist
    requires if letter == "" then known.scm == v.scm else known.scm == Tarball && letter == [Abbreviation(v.scm)]
    ensures ReadRevision(known, letter + (Hash(v.rvsn) + Dirt(v, [sep] + "dirty"))) == Outcome(0, v)
  {
    var d := Dirt(v, [sep] + "dirty");
    var h := Hash(v.rvsn) + d;
    DirtBack(v, sep);
    HashBack(v.rvsn, d);
    hide Hash, HexToUint, HexRun, IsDirty, Dirt;
    if letter == "" {
      assert letter + h == h;
      assert IsHex(h[0]);
    } else {
      assert (letter + h)[1..] == h && (letter + h)[0] == letter[0];
    }
  }

  /** The fields that are printed; the others come back blank. */
  function Printed(v: Stamp): Stamp {
    if v.dist == 0 then BLANK.(vtag := v.vtag)
    else if HasRevision(v) then v
    else BLANK.(vtag := v.vtag, dist := v.dist)
  }

  /** Tags that fit and cannot be mistaken for something else. */
  predicate PlainTag(tag: string) {
    && |tag| <= 15 && IndexOf(tag, "-") < 0
    && IndexOf(tag, GIT) < 0 && IndexOf(tag, BZR) < 0 && IndexOf(tag, HG) < 0
  }

  predicate Writable(v: Stamp) {
    PlainTag(v.vtag) && v.dist < TWO32 && (v.rvsn == 0 || WellFormed(v.rvsn))
  }

  /** What is written behind the tag. */
  function Rest(v: Stamp): string {
    if v.dist == 0 then "" else "-" + (DecimalText(v.dist) + if HasRevision(v) then RevisionText(v) else "")
  }

  lemma TextParts(v: Stamp)
    ensures StampText(v) == "v" + (v.vtag + Rest(v))
  {
  }

  lemma RestHasNoDot(v: Stamp)
    requires v.rvsn == 0 || WellFormed(v.rvsn)
    ensures NoDot(Rest(v)) && (Rest(v) != "" ==> Rest(v)[0] == '-')
  {
    assert NoDot(DecimalText(v.dist));
    if v.rvsn != 0 {
      HashBack(v.rvsn, "");
      HexNoDot(Hash(v.rvsn));
      hide Hash, DecimalText;
      assert NoDot(RevisionText(v));
    }
  }

  lemma HexNoDot(s: string)
    requires AllHex(s)
    ensures NoDot(s)
  {
  }

  lemma {:induction false} DashAt(tag: string, t: string)
    requires IndexOf(tag, "-") < 0
    ensures t == "" ==> IndexOf(tag + t, "-") < 0
    ensures t != "" && t[0] == '-' ==> IndexOf(tag + t, "-") == |tag|
    decreases |tag|
  {
    if tag == "" {
      assert tag + t == t;
      assert t != "" ==> t[..1] == [t[0]];
    } else {
      assert tag[..1] == [tag[0]];
      DashAt(tag[1..], t);
      assert (tag + t)[1..] == tag[1..] + t;
      assert (tag + t)[..1] == [tag[0]];
    }
  }

  lemma NoMarks(v: Stamp, m: string)
    requires Writable(v) && IsMark(m) && IndexOf(v.vtag, m) < 0
    ensures IndexOf(v.vtag + Rest(v), m) < 0
  {
    RestHasNoDot(v);
    NoMarkIn(Rest(v), m);
    SkipTag(v.vtag, Rest(v), m);
  }

  /** Reading a written stamp gives every field that was printed. */
  lemma ReadWritten(v: Stamp)
    requires Writable(v)
    ensures ReadStamp(StampText(v)) == Outcome(0, Printed(v))
  {
    var t := v.vtag + Rest(v);
    TextParts(v);
    assert ("v" + t)[1..] == t;
    NoMarks(v, GIT);
    NoMarks(v, BZR);
    NoMarks(v, HG);
    RestHasNoDot(v);
    DashAt(v.vtag, Rest(v));
    assert t[..|v.vtag|] == v.vtag;
    hide WellFormed, IndexOf, DecimalText, Hash, StrToUl10, ReadRevision;
    if v.dist == 0 {
      assert t == v.vtag;
    } else {
      WrittenDistance(v);
      assert t[|v.vtag| + 1..] == Rest(v)[1..];
    }
  }

  lemma WrittenDistance(v: Stamp)
    requires Writable(v) && v.dist != 0
    ensures Rest(v) != "" && ReadDistance(BLANK.(vtag := v.vtag), Rest(v)[1..]) == Outcome(0, Printed(v))
  {
    if HasRevision(v) {
      WrittenRevision(v);
      assert Rest(v)[1..] == DecimalText(v.dist) + RevisionText(v);
    } else {
      assert Rest(v)[1..] == DecimalText(v.dist) + "";
      hide StrToUl10, DecimalText, ReadRevision, Rest, WellFormed;
      StrToUl10Back(v.dist, "");
    }
  }

  lemma WrittenRevision(v: Stamp)
    requires Writable(v) && HasRevision(v)
    ensures ReadDistance(BLANK.(vtag := v.vtag), DecimalText(v.dist) + RevisionText(v)) == Outcome(0, v)
  {
    MoreParts(v);
    assert WellFormed(v.rvsn);
    hide StrToUl10, DecimalText, Hash, ReadRevision, WellFormed, RevisionText, Writable, Dirt;
    StrToUl10Back(v.dist, RevisionText(v));
    RevisionBack(v, BLANK.(vtag := v.vtag, dist := v.dist), [Abbreviation(v.scm)], '-');
  }

  lemma MoreParts(v: Stamp)
    ensures RevisionText(v)[0] == '-'
    ensures RevisionText(v)[1..] == [Abbreviation(v.scm)] + (Hash(v.rvsn) + Dirt(v, ['-'] + "dirty"))
  {
    hide Hash, Abbreviation;
    assert ['-'] + "dirty" == "-dirty";
  }

  /** Writing again what was read gives the same text. */
  lemma WrittenIsStable(v: Stamp)
    requires Writable(v)
    ensures StampText(ReadStamp(StampText(v)).v) == StampText(v)
  {
    ReadWritten(v);
    hide ReadStamp;
  }

  /** A stamp may begin with a small or a large v, or with none before a digit; with
      anything else it is no stamp. */
  lemma Beginnings(t: string)
    ensures ReadStamp("v" + t) == ReadTagged(t) == ReadStamp("V" + t)
    ensures '0' <= At(t, 0) <= '9' ==> ReadStamp(t) == ReadTagged(t)
    ensures At(t, 0) != 'v' && At(t, 0) != 'V' && !('0' <= At(t, 0) <= '9') ==> ReadStamp(t) == Outcome(-1, BLANK)
  {
    assert ("v" + t)[1..] == t && ("V" + t)[1..] == t;
    hide ReadTagged;
  }

  /** So a written stamp whose tag begins with a digit is read back without its v. */
  lemma ReadBare(v: Stamp)
    requires Writable(v) && '0' <= At(v.vtag, 0) <= '9'
    ensures ReadStamp(StampText(v)[1..]) == Outcome(0, Printed(v))
    ensures ReadStamp("V" + StampText(v)[1..]) == Outcome(0, Printed(v))
  {
    TextParts(v);
    var t := v.vtag + Rest(v);
    assert StampText(v)[1..] == t && At(t, 0) == At(v.vtag, 0);
    hide ReadStamp, ReadTagged, StampText, Rest, Writable, Printed;
    ReadWritten(v);
    Beginnings(t);
  }

  /** A dot behind the distance of a stamp without a mark is refused; behind a dash,
      a letter that stands for no system ends the reading there. */
  lemma NoSystem(v: Stamp, n: nat, more: string)
    requires n < TWO32 && v.scm == Tarball
    ensures ReadDistance(v, DecimalText(n) + ("." + more)) == Outcome(-1, v.(dist := n))
    ensures At(more, 0) != 'g' && At(more, 0) != 'h' && At(more, 0) != 'b' ==>
      ReadDistance(v, DecimalText(n) + ("-" + more)) == Outcome(0, v.(dist := n))
  {
    hide StrToUl10, DecimalText, HexToUint, HexRun;
    StrToUl10Back(n, "." + more);
    StrToUl10Back(n, "-" + more);
    assert ("-" + more)[1..] == more;
  }

  // ----- the notation with dots -----

  /** The same stamp with the system's mark behind the tag and dots between the
      fields; the last separator may be a dash. */
  function DottedText(v: Stamp, sep: char): string
    requires v.scm != Tarball
  {
    "v" + (v.vtag + (Mark(v.scm) + (DecimalText(v.dist) + ("." + (Hash(v.rvsn) + Dirt(v, [sep] + "dirty"))))))
  }

  /** Behind the mark, no other mark starts: a dot comes before the hash, whose
      digits no mark is made of, and one may come before the last word. */
  lemma NoMarkBehind(v: Stamp, sep: char, m: string)
    requires WellFormed(v.rvsn) && IsMark(m) && (sep == '-' || sep == '.')
    ensures IndexOf(DecimalText(v.dist) + ("." + (Hash(v.rvsn) + Dirt(v, [sep] + "dirty"))), m) < 0
  {
    var dirt := Dirt(v, [sep] + "dirty");
    var h := Hash(v.rvsn) + dirt;
    HashBack(v.rvsn, "");
    HexNoDot(Hash(v.rvsn));
    NoMarkInDirt(v, sep, m);
    DotThenHex(Hash(v.rvsn), dirt, m);
    assert NoDot(DecimalText(v.dist));
    hide Hash, DecimalText, Dirt, IndexOf, IsMark, NoDot, WellFormed;
    SkipNoDot(Hash(v.rvsn), dirt, m);
    SkipDot(h, m);
    SkipNoDot(DecimalText(v.dist), "." + h, m);
  }

  lemma SkipDot(h: string, m: string)
    requires IsMark(m) && !StartsWith("." + h, m)
    ensures IndexOf("." + h, m) == if IndexOf(h, m) < 0 then -1 else IndexOf(h, m) + 1
  {
    assert ("." + h)[1..] == h;
  }

  lemma DotThenHex(w: string, dirt: string, m: string)
    requires AllHex(w) && w != "" && IsMark(m)
    requires dirt == "" || dirt[0] == '-' || dirt[0] == '.'
    ensures !StartsWith("." + (w + dirt), m)
  {
    var u := "." + (w + dirt);
    if |m| <= |u| {
      assert u[..|m|][1] == w[0];
      assert u[..|m|][2] == if |w| > 1 then w[1] else dirt[0];
    }
  }

  lemma NoMarkInDirt(v: Stamp, sep: char, m: string)
    requires IsMark(m) && (sep == '-' || sep == '.')
    ensures var d := Dirt(v, [sep] + "dirty"); IndexOf(d, m) < 0 && (d != "" ==> d[0] == sep)
  {
    assert NoDot("dirty");
    NoMarkIn("dirty", m);
    NoMarkIn("", m);
    var d := [sep] + "dirty";
    assert d[1..] == "dirty";
    if |m| <= |d| {
      assert d[..|m|][1] == 'd';
    }
  }

  /** Both notations of one stamp read as the same record: a distance of zero, which
      the notation with dashes leaves out, aside. */
  lemma NotationsAgree(v: Stamp, sep: char)
    requires Writable(v) && WellFormed(v.rvsn) && v.scm != Tarball && (sep == '-' || sep == '.')
    ensures ReadStamp(DottedText(v, sep)) == Outcome(0, v)
    ensures v.dist != 0 ==> ReadStamp(StampText(v)) == ReadStamp(DottedText(v, sep))
  {
    DottedBack(v, sep);
    hide ReadStamp;
    if v.dist != 0 {
      ReadWritten(v);
      assert v.rvsn != 0;
    }
  }

  /** Reading a tag with a mark behind it goes on with the distance. */
  lemma ReadMarked(tag: string, scm: Scm, more: string)
    requires scm != Tarball && |tag| <= 15
    requires FindMark(tag + (Mark(scm) + more)) == (scm, |tag|)
    ensures ReadStamp("v" + (tag + (Mark(scm) + more))) == ReadDistance(BLANK.(scm := scm, vtag := tag), more)
  {
    var t := tag + (Mark(scm) + more);
    assert ("v" + t)[1..] == t && ("v" + t)[0] == 'v';
    assert t[..|tag|] == tag;
    assert t[|tag| + |Mark(scm)|..] == more;
    hide FindMark, ReadDistance, Mark;
  }

  lemma DottedBack(v: Stamp, sep: char)
    requires Writable(v) && WellFormed(v.rvsn) && v.scm != Tarball && (sep == '-' || sep == '.')
    ensures ReadStamp(DottedText(v, sep)) == Outcome(0, v)
  {
    var more := DecimalText(v.dist) + ("." + (Hash(v.rvsn) + Dirt(v, [sep] + "dirty")));
    TagFits(v);
    MarkFound(v, sep, more);
    ReadMarked(v.vtag, v.scm, more);
    DottedDistance(v, sep, more);
    hide FindMark, ReadDistance, ReadStamp, DecimalText, Hash, Dirt, WellFormed, Writable, Mark;
  }

  lemma TagFits(v: Stamp)
    requires Writable(v)
    ensures |v.vtag| <= 15
  {
  }

  lemma DottedDistance(v: Stamp, sep: char, more: string)
    requires Writable(v) && WellFormed(v.rvsn) && v.scm != Tarball && (sep == '-' || sep == '.')
    requires more == DecimalText(v.dist) + ("." + (Hash(v.rvsn) + Dirt(v, [sep] + "dirty")))
    ensures ReadDistance(BLANK.(scm := v.scm, vtag := v.vtag), more) == Outcome(0, v)
  {
    var h := Hash(v.rvsn) + Dirt(v, [sep] + "dirty");
    hide StrToUl10, DecimalText, Hash, ReadRevision, WellFormed, Dirt;
    StrToUl10Back(v.dist, "." + h);
    RevisionBack(v, BLANK.(scm := v.scm, vtag := v.vtag, dist := v.dist), "", sep);
    assert ("." + h)[1..] == h && "" + h == h;
  }

  /** The mark that was written is found, and no other. */
  lemma MarkFound(v: Stamp, sep: char, more: string)
    requires Writable(v) && WellFormed(v.rvsn) && v.scm != Tarball && (sep == '-' || sep == '.')
    requires more == DecimalText(v.dist) + ("." + (Hash(v.rvsn) + Dirt(v, [sep] + "dirty")))
    ensures FindMark(v.vtag + (Mark(v.scm) + more)) == (v.scm, |v.vtag|)
  {
    MarkAt(v, sep, more, GIT);
    MarkAt(v, sep, more, BZR);
    MarkAt(v, sep, more, HG);
    hide IndexOf;
  }

  lemma MarkAt(v: Stamp, sep: char, more: string, m: string)
    requires Writable(v) && WellFormed(v.rvsn) && v.scm != Tarball && (sep == '-' || sep == '.') && IsMark(m)
    requires more == DecimalText(v.dist) + ("." + (Hash(v.rvsn) + Dirt(v, [sep] + "dirty")))
    ensures IndexOf(v.vtag + (Mark(v.scm) + more), m) == if m == Mark(v.scm) then |v.vtag| else -1
  {
    NoMarkBehind(v, sep, m);
    var mark := Mark(v.scm);
    OneMark(mark, more, m);
    hide IndexOf, Mark, Hash, DecimalText, Dirt, WellFormed;
    SkipTag(v.vtag, mark + more, m);
  }

  lemma OneMark(mark: string, more: string, m: string)
    requires IsMark(mark) && IsMark(m) && IndexOf(more, m) < 0
    ensures IndexOf(mark + more, m) == if m == mark then 0 else -1
    ensures (mark + more)[0] == '.'
  {
    var s := mark + more;
    if m == mark {
      assert s[..|m|] == m;
    } else {
      OtherMark(mark, more, m);
      assert s[1..] == mark[1..] + more;
      assert NoDot(mark[1..]);
      SkipNoDot(mark[1..], more, m);
    }
  }

  lemma OtherMark(mark: string, more: string, m: string)
    requires IsMark(mark) && IsMark(m) && m != mark
    ensures !StartsWith(mark + more, m)
  {
    assert (mark + more)[1] == mark[1];
    assert mark[1] != m[1];
  }

  // ----- the reader -----

  /** The marker search of the program, on the bytes of the text. */
  method Find(s: string, m: string) returns (r: int)
    requires Search.IsBytes(s) && Search.IsBytes(m)
    ensures r == IndexOf(s, m)
  {
    hide Search.OccursAt, Search.Bytes;
    r := Search.Find(Search.Bytes(s), Search.Bytes(m));
    forall p: nat ensures Search.OccursAt(Search.Bytes(s), Search.Bytes(m), p) <==> Search.OccursAt(s, m, p) {
      Search.BytesOccur(s, m, p);
    }
    if r >= 0 {
      IndexIs(s, m, r);
    } else {
      IndexNone(s, m);
    }
  }

  lemma OccursLater(s: string, m: string, k: nat)
    requires s != ""
    ensures Search.OccursAt(s[1..], m, k) <==> Search.OccursAt(s, m, k + 1)
  {
    if k + 1 + |m| <= |s| {
      assert s[1..][k..k + |m|] == s[k + 1..k + 1 + |m|];
    }
  }

  lemma OccursFirst(s: string, m: string)
    ensures Search.OccursAt(s, m, 0) <==> StartsWith(s, m)
  {
    if |m| <= |s| {
      assert s[0..0 + |m|] == s[..|m|];
    }
  }

  lemma {:induction false} IndexIs(s: string, m: string, e: nat)
    requires Search.OccursAt(s, m, e) && forall k :: 0 <= k < e ==> !Search.OccursAt(s, m, k)
    ensures IndexOf(s, m) == e
    decreases e
  {
    OccursFirst(s, m);
    if e > 0 {
      assert s != "";
      assert !Search.OccursAt(s, m, 0);
      hide Search.OccursAt, StartsWith;
      forall k: nat ensures Search.OccursAt(s[1..], m, k) <==> Search.OccursAt(s, m, k + 1) {
        OccursLater(s, m, k);
      }
      IndexIs(s[1..], m, e - 1);
    }
  }

  lemma {:induction false} IndexNone(s: string, m: string)
    requires forall k: nat :: !Search.OccursAt(s, m, k)
    ensures IndexOf(s, m) == -1
    decreases |s|
  {
    OccursFirst(s, m);
    hide Search.OccursAt, StartsWith;
    assert !Search.OccursAt(s, m, 0);
    if s != "" {
      forall k: nat ensures Search.OccursAt(s[1..], m, k) <==> Search.OccursAt(s, m, k + 1) {
        OccursLater(s, m, k);
      }
      IndexNone(s[1..], m);
    }
  }

  /** Whether these are the places of tag and distance, the latter past the end if
      there is none; a system's mark goes before a dash. */
  predicate AreFields(t: string, scm: Scm, eov: nat, dist: nat) {
    && scm == FindMark(t).0 && eov <= |t|
    && if scm != Tarball then eov == FindMark(t).1 && dist == eov + |Mark(scm)|
       else if IndexOf(t, "-") < 0 then eov == |t| && dist > |t|
       else eov == IndexOf(t, "-") && dist == eov + 1
  }

  lemma TaggedIs(t: string, scm: Scm, eov: nat, dist: nat)
    requires AreFields(t, scm, eov, dist)
    ensures var v := BLANK.(scm := scm, vtag := Stored(t[..eov]));
      ReadTagged(t) == if dist > |t| then Outcome(0, v) else ReadDistance(v, t[dist..])
  {
    IndexFits(t, "-");
    assert t[..|t|] == t;
    hide IndexOf, ReadDistance, Stored;
  }

  /** Reads a stamp into a record that was cleared before, field by field. */
  method RdVersion(buf: string) returns (rc: int, v: Stamp)
    requires Search.IsBytes(buf)
    ensures Outcome(rc, v) == ReadStamp(buf)
  {
    v := BLANK;
    var c := At(buf, 0);
    if !(c == 'v' || c == 'V' || '0' <= c <= '9') {
      return -1, v;
    }
    var t := if c == 'v' || c == 'V' then buf[1..] else buf;
    assert t == TagText(buf);
    hide ReadTagged, ReadDistance, AreFields;
    var scm, eov, dist := FindFields(t);
    TaggedIs(t, scm, eov, dist);
    v := v.(scm := scm);
    v := v.(vtag := Copied(t[..eov], 16));
    if dist > |t| {
      return 0, v;
    }
    rc, v := RdDistance(v, t[dist..]);
  }

  /** Looks for a dash, then for the marks. */
  method FindFields(t: string) returns (scm: Scm, eov: nat, dist: nat)
    requires Search.IsBytes(t)
    ensures eov <= |t| && AreFields(t, scm, eov, dist)
  {
    hide IndexOf;
    IndexFits(t, "-");
    scm := Tarball;
    var dash := Find(t, "-");
    eov, dist := if dash < 0 then |t| else dash, if dash < 0 then |t| + 1 else dash + 1;
    var altp := Find(t, GIT);
    if altp >= 0 {
      scm, eov, dist := Git, altp, altp + 4;
    } else {
      altp := Find(t, BZR);
      if altp >= 0 {
        scm, eov, dist := Bzr, altp, altp + 4;
      } else {
        altp := Find(t, HG);
        if altp >= 0 {
          scm, eov, dist := Hg, altp, altp + 3;
        }
      }
    }
  }

  method RdDistance(v0: Stamp, s: string) returns (rc: int, v: Stamp)
    ensures Outcome(rc, v) == ReadDistance(v0, s)
  {
    hide StrToUl10, HexToUint, HexRun, IsDirty;
    var (d, on) := StrToUl10(s);
    v := v0.(dist := d % TWO32);
    var c := At(on, 0);
    if c == '.' {
      if v.scm == Tarball {
        return -1, v;
      }
    } else if c != '-' {
      return 0, v;
    }
    var bp := on[1..];
    c := At(bp, 0);
    if c == 'g' {
      v, bp := v.(scm := Git), bp[1..];
    } else if c == 'h' {
      v, bp := v.(scm := Hg), bp[1..];
    } else if c == 'b' && v.scm == Tarball {
      v, bp := v.(scm := Bzr), bp[1..];
    } else if v.scm == Tarball {
      return 0, v;
    }
    var rvsn;
    rvsn, bp := HexToU(bp);
    v := v.(rvsn := rvsn);
    v := v.(dirty := IsDirty(bp));
    rc := 0;
  }
}
