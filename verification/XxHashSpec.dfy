/** xxHash32 with seed zero as it is published, in numbers modulo 2^32. */
module XxHashSpec {
  import opened WordValues
  import opened Words

  function Octet(b: byte): nat {
    b as nat
  }

  /** Four bytes from i on, the lowest first. */
  function Four(s: seq<byte>, i: nat): nat
    requires i + 4 <= |s|
  {
    Octet(s[i]) + 0x100 * Octet(s[i + 1]) + 0x1_0000 * Octet(s[i + 2]) + 0x100_0000 * Octet(s[i + 3])
  }

  function Round(acc: nat, input: nat): nat {
    Rotated((acc + input * 2246822519) % TWO32, 13) * 2654435761 % TWO32
  }

  /** One of the four accumulators after n stripes of sixteen bytes. */
  function Accumulator(s: seq<byte>, i: nat, n: nat): nat
    requires i < 4 && 16 * n <= |s|
  {
    if n > 0 then Round(Accumulator(s, i, n - 1), Four(s, 16 * (n - 1) + 4 * i))
    else if i == 0 then (2654435761 + 2246822519) % TWO32
    else if i == 1 then 2246822519
    else if i == 2 then 0
    else TWO32 - 2654435761
  }

  function Converged(s: seq<byte>): nat {
    var n := |s| / 16;
    if n == 0 then 374761393
    else (Rotated(Accumulator(s, 0, n), 1) + Rotated(Accumulator(s, 1, n), 7)
          + Rotated(Accumulator(s, 2, n), 12) + Rotated(Accumulator(s, 3, n), 18)) % TWO32
  }

  function FourStep(h: nat, input: nat): nat {
    Rotated((h + input * 3266489917) % TWO32, 17) * 668265263 % TWO32
  }

  function OneStep(h: nat, input: nat): nat {
    Rotated((h + input * 374761393) % TWO32, 11) * 2654435761 % TWO32
  }

  /** The bytes from i on, four at a time as long as there are four. */
  function Remaining(h: nat, s: seq<byte>, i: nat): nat
    requires i <= |s|
    decreases |s| - i
  {
    if i + 4 <= |s| then Remaining(FourStep(h, Four(s, i)), s, i + 4)
    else if i < |s| then Remaining(OneStep(h, Octet(s[i])), s, i + 1)
    else h
  }

  function Final(h: nat): nat {
    var a := Xored(h, h / 0x8000) * 2246822519 % TWO32;
    var b := Xored(a, a / 0x2000) * 3266489917 % TWO32;
    Xored(b, b / 0x1_0000)
  }

  function Hashed(s: seq<byte>): nat {
    Final(Remaining((Converged(s) + |s|) % TWO32, s, |s| / 16 * 16))
  }
}

/** What the program computes is that hash. */
module XxHashValue {
  import opened Words
  import opened WordValues
  import opened XxHash
  import S = XxHashSpec

  lemma Next1(x: word)
    ensures Times1(Inc(x)) == Plus(Times1(x), 2654435761) && Times1(0) == 0
  {
  }

  lemma AddsUp1()
    ensures AddsUp(Times1, 2654435761)
  {
    hide Times1, Inc, Plus;
    Next1(0);
    forall x ensures Times1(Inc(x)) == Plus(Times1(x), 2654435761) {
      Next1(x);
    }
  }

  lemma Next2(x: word)
    ensures Times2(Inc(x)) == Plus(Times2(x), 2246822519) && Times2(0) == 0
  {
  }

  lemma AddsUp2()
    ensures AddsUp(Times2, 2246822519)
  {
    hide Times2, Inc, Plus;
    Next2(0);
    forall x ensures Times2(Inc(x)) == Plus(Times2(x), 2246822519) {
      Next2(x);
    }
  }

  lemma Next3(x: word)
    ensures Times3(Inc(x)) == Plus(Times3(x), 3266489917) && Times3(0) == 0
  {
  }

  lemma AddsUp3()
    ensures AddsUp(Times3, 3266489917)
  {
    hide Times3, Inc, Plus;
    Next3(0);
    forall x ensures Times3(Inc(x)) == Plus(Times3(x), 3266489917) {
      Next3(x);
    }
  }

  lemma Next4(x: word)
    ensures Times4(Inc(x)) == Plus(Times4(x), 668265263) && Times4(0) == 0
  {
  }

  lemma AddsUp4()
    ensures AddsUp(Times4, 668265263)
  {
    hide Times4, Inc, Plus;
    Next4(0);
    forall x ensures Times4(Inc(x)) == Plus(Times4(x), 668265263) {
      Next4(x);
    }
  }

  lemma Next5(x: word)
    ensures Times5(Inc(x)) == Plus(Times5(x), 374761393) && Times5(0) == 0
  {
  }

  lemma AddsUp5()
    ensures AddsUp(Times5, 374761393)
  {
    hide Times5, Inc, Plus;
    Next5(0);
    forall x ensures Times5(Inc(x)) == Plus(Times5(x), 374761393) {
      Next5(x);
    }
  }

  lemma Primes()
    ensures Value(2654435761) == 2654435761 && Value(2246822519) == 2246822519 && Value(3266489917) == 3266489917
    ensures Value(668265263) == 668265263 && Value(374761393) == 374761393
  {
  }

  lemma TimesPrimes(x: word)
    ensures Value(Times1(x)) == Value(x) * 2654435761 % TWO32 && Value(Times2(x)) == Value(x) * 2246822519 % TWO32
    ensures Value(Times3(x)) == Value(x) * 3266489917 % TWO32 && Value(Times4(x)) == Value(x) * 668265263 % TWO32
    ensures Value(Times5(x)) == Value(x) * 374761393 % TWO32
  {
    Primes();
    hide Value, AddsUp, Times1, Times2, Times3, Times4, Times5;
    AddsUp1();
    MultipleValue(Times1, 2654435761, x);
    AddsUp2();
    MultipleValue(Times2, 2246822519, x);
    AddsUp3();
    MultipleValue(Times3, 3266489917, x);
    AddsUp4();
    MultipleValue(Times4, 668265263, x);
    AddsUp5();
    MultipleValue(Times5, 374761393, x);
  }

  lemma Turns(x: word)
    ensures Value(Rotl(x, 13)) == Rotated(Value(x), 13) && Value(Rotl(x, 17)) == Rotated(Value(x), 17)
    ensures Value(Rotl(x, 11)) == Rotated(Value(x), 11) && Value(Rotl(x, 1)) == Rotated(Value(x), 1)
    ensures Value(Rotl(x, 7)) == Rotated(Value(x), 7) && Value(Rotl(x, 12)) == Rotated(Value(x), 12)
    ensures Value(Rotl(x, 18)) == Rotated(Value(x), 18)
  {
    hide Value, Rotl, Rotated;
    RotlValue(x, 13);
    RotlValue(x, 17);
    RotlValue(x, 11);
    RotlValue(x, 1);
    RotlValue(x, 7);
    RotlValue(x, 12);
    RotlValue(x, 18);
  }

  lemma SumOfRemainders(x: nat, y: nat)
    ensures (x + y % TWO32) % TWO32 == (x + y) % TWO32 == (x % TWO32 + y) % TWO32
  {
  }

  lemma LaneIs(v: word, w: word)
    ensures Value(Lane(v, w)) == S.Round(Value(v), Value(w))
  {
    hide Value, Rotl, Rotated, Times1, Times2, Plus;
    TimesPrimes(w);
    PlusValue(v, Times2(w));
    SumOfRemainders(Value(v), Value(w) * 2246822519);
    Turns(Plus(v, Times2(w)));
    TimesPrimes(Rotl(Plus(v, Times2(w)), 13));
  }

  lemma WordStepIs(h: word, w: word)
    ensures Value(WordStep(h, w)) == S.FourStep(Value(h), Value(w))
  {
    hide Value, Rotl, Rotated, Times3, Times4, Plus;
    TimesPrimes(w);
    PlusValue(h, Times3(w));
    SumOfRemainders(Value(h), Value(w) * 3266489917);
    Turns(Plus(h, Times3(w)));
    TimesPrimes(Rotl(Plus(h, Times3(w)), 17));
  }

  lemma ByteStepIs(h: word, b: byte)
    ensures Value(ByteStep(h, b)) == S.OneStep(Value(h), S.Octet(b))
  {
    var w := b as word;
    ByteStepOf(h, b, w);
    OctetValue(b, w);
    hide Value, Rotl, Rotated, Times1, Times5, Plus, ByteStep, S.Octet;
    TimesPrimes(w);
    PlusValue(h, Times5(w));
    SumOfRemainders(Value(h), Value(w) * 374761393);
    Turns(Plus(h, Times5(w)));
    TimesPrimes(Rotl(Plus(h, Times5(w)), 11));
  }

  lemma ByteStepOf(h: word, b: byte, w: word)
    requires w == b as word
    ensures ByteStep(h, b) == Times1(Rotl(Plus(h, Times5(w)), 11))
  {
    hide Rotl, Times1, Times5, Plus;
  }

  lemma OctetValue(b: byte, w: word)
    requires w == b as word
    ensures Value(w) == S.Octet(b)
  {
  }

  lemma FourIs(s: seq<byte>, k: nat)
    requires 4 * k + 4 <= |s|
    ensures Value(WordAt(s, k)) == S.Four(s, 4 * k)
  {
    Concat4Value(s[4 * k + 3], s[4 * k + 2], s[4 * k + 1], s[4 * k]);
    hide Concat4;
  }

  lemma StartValues()
    ensures Value(LaneStart(0)) == (2654435761 + 2246822519) % TWO32 && Value(LaneStart(1)) == 2246822519
    ensures Value(LaneStart(2)) == 0 && Value(LaneStart(3)) == TWO32 - 2654435761
  {
    assert LaneStart(0) == 606290984 && LaneStart(3) == 1640531535;
  }

  lemma {:induction false} LanesAre(s: seq<byte>, i: nat, n: nat)
    requires i < 4 && 16 * n <= |s|
    ensures Value(LaneAfter(s, i, n)) == S.Accumulator(s, i, n)
  {
    StartValues();
    hide Value, Lane, LaneStart, WordAt, S.Round, S.Four;
    if n > 0 {
      LanesAre(s, i, n - 1);
      FourIs(s, 4 * (n - 1) + i);
      LaneIs(LaneAfter(s, i, n - 1), WordAt(s, 4 * (n - 1) + i));
    }
  }

  lemma MergeIs(a: word, b: word, c: word, d: word)
    ensures Value(Merge(a, b, c, d))
      == (Rotated(Value(a), 1) + Rotated(Value(b), 7) + Rotated(Value(c), 12) + Rotated(Value(d), 18)) % TWO32
  {
    hide Value, Rotl, Rotated, Plus;
    Turns(a);
    Turns(b);
    Turns(c);
    Turns(d);
    SumOfFour(Rotl(a, 1), Rotl(b, 7), Rotl(c, 12), Rotl(d, 18));
  }

  lemma SumOfFour(a: word, b: word, c: word, d: word)
    ensures Value(Plus(Plus(Plus(a, b), c), d)) == (Value(a) + Value(b) + Value(c) + Value(d)) % TWO32
  {
    hide Value, Plus;
    PlusValue(a, b);
    PlusValue(Plus(a, b), c);
    PlusValue(Plus(Plus(a, b), c), d);
    SumOfRemainders(Value(a) + Value(b), Value(c));
    SumOfRemainders(Value(c), Value(a) + Value(b));
    SumOfRemainders(Value(d), Value(a) + Value(b) + Value(c));
  }

  lemma StartIs(s: seq<byte>)
    ensures Value(Start(s)) == S.Converged(s)
  {
    var n := Stripes(s);
    Primes();
    hide Value, Rotated, LaneAfter, Merge, S.Accumulator;
    if n > 0 {
      LanesAre(s, 0, n);
      LanesAre(s, 1, n);
      LanesAre(s, 2, n);
      LanesAre(s, 3, n);
      MergeIs(LaneAfter(s, 0, n), LaneAfter(s, 1, n), LaneAfter(s, 2, n), LaneAfter(s, 3, n));
    }
  }

  lemma LengthAdded(h: word, n: nat)
    ensures Value(Plus(h, Bits32(n % TWO32))) == (Value(h) + n) % TWO32
  {
    Bits32Value(n % TWO32);
    assert Value(Bits32(n % TWO32)) == n % TWO32;
    hide Value, Plus, Bits32;
    PlusValue(h, Bits32(n % TWO32));
    SumOfRemainders(Value(h), n);
  }

  lemma {:induction false} WordsAre(s: seq<byte>, h: word, i: nat, n: nat)
    requires i <= n && 4 * n <= |s|
    ensures S.Remaining(Value(h), s, 4 * i) == S.Remaining(Value(WordsAfter(s, h, i, n)), s, 4 * n)
    decreases n
  {
    hide Value, WordStep, WordAt, S.FourStep, S.OneStep, S.Four;
    if i < n {
      WordsAre(s, h, i, n - 1);
      FourIs(s, n - 1);
      WordStepIs(WordsAfter(s, h, i, n - 1), WordAt(s, n - 1));
    }
  }

  lemma {:induction false} BytesAre(s: seq<byte>, h: word, i: nat, n: nat)
    requires i <= n <= |s| < i + 4
    ensures S.Remaining(Value(h), s, i) == S.Remaining(Value(BytesAfter(s, h, i, n)), s, n)
    decreases n
  {
    hide Value, ByteStep, S.FourStep, S.OneStep, S.Four;
    if i < n {
      BytesAre(s, h, i, n - 1);
      ByteStepIs(BytesAfter(s, h, i, n - 1), s[n - 1]);
    }
  }

  lemma FoldIs(x: word, r: bv6, k: nat)
    requires 0 < r < 32 && r as nat == k
    ensures Value(FoldDown(x, r)) == Xored(Value(x), Lowered(Value(x), k))
  {
    FoldOf(x, r);
    hide Value, FoldDown, Xor, Shifted, Xored;
    ShiftedValue(x, r, k);
    XorValue(x, Shifted(x, r));
  }

  lemma FoldOf(x: word, r: bv6)
    requires 0 < r < 32
    ensures FoldDown(x, r) == Xor(x, Shifted(x, r))
  {
    calc {
      FoldDown(x, r);
      x ^ (x >> r);
      Xor(x, x >> r);
      Xor(x, Shifted(x, r));
    }
  }

  lemma Powers()
    ensures Pow2(15) == 0x8000 && Pow2(13) == 0x2000 && Pow2(16) == 0x1_0000
  {
    assert Pow2(5) == 32 && Pow2(10) == 1024;
  }

  lemma AvalancheIs(h: word)
    ensures Value(Avalanche(h)) == S.Final(Value(h))
  {
    Powers();
    hide Value, FoldDown, Times2, Times3, Xored, Pow2;
    FoldIs(h, 15, 15);
    var a := Times2(FoldDown(h, 15));
    TimesPrimes(FoldDown(h, 15));
    FoldIs(a, 13, 13);
    TimesPrimes(FoldDown(a, 13));
    FoldIs(Times3(FoldDown(a, 13)), 16, 16);
  }

  lemma NothingRemains(h: nat, s: seq<byte>)
    ensures S.Remaining(h, s, |s|) == h
  {
  }

  lemma Cuts(s: seq<byte>)
    ensures 4 * (4 * Stripes(s)) == |s| / 16 * 16 && 4 * Stripes(s) <= |s| / 4
    ensures 4 * (|s| / 4) <= |s| < 4 * (|s| / 4) + 4
  {
  }

  /** On every input the program's hash is the published one. */
  lemma HashIsPublished(s: seq<byte>)
    ensures Value(Hash32(s)) == S.Hashed(s)
  {
    Cuts(s);
    var h, n, t := HashParts(s);
    hide *;
    StartIs(s);
    LengthAdded(Start(s), |s|);
    WordsAre(s, h, 4 * Stripes(s), n);
    BytesAre(s, Middle(s), t, |s|);
    NothingRemains(Value(BytesAfter(s, Middle(s), t, |s|)), s);
    AvalancheIs(BytesAfter(s, Middle(s), t, |s|));
  }

  lemma HashParts(s: seq<byte>) returns (h: word, n: nat, t: nat)
    ensures h == Plus(Start(s), Bits32(|s| % TWO32)) && n == |s| / 4 && t == 4 * n
    ensures S.Hashed(s) == S.Final(S.Remaining((S.Converged(s) + |s|) % TWO32, s, |s| / 16 * 16))
    ensures Middle(s) == WordsAfter(s, h, 4 * Stripes(s), n)
    ensures Hash32(s) == Avalanche(BytesAfter(s, Middle(s), t, |s|))
  {
    h, n, t := Plus(Start(s), Bits32(|s| % TWO32)), |s| / 4, 4 * (|s| / 4);
    hide Plus, Start, Bits32, Stripes, WordsAfter, BytesAfter, Avalanche, S.Converged, S.Remaining, S.Final;
  }

  // ----- published values, one for each path -----

  lemma HashFrom(s: seq<byte>, len: word, k: nat, h: word, m: word)
    requires Bits32(|s| % TWO32) == len && Start(s) == h && WordsAfter(s, Plus(h, len), 4 * Stripes(s), |s| / 4) == m
    requires k == 4 * (|s| / 4)
    ensures Hash32(s) == Avalanche(BytesAfter(s, m, k, |s|))
  {
    hide Plus, Bits32, Start, WordsAfter, BytesAfter, Avalanche;
  }

  lemma NoBytes()
    ensures Hash32([]) == 0x02cc5d05
  {
    assert Bits32(0) == 0;
    hide Bits32;
    HashFrom([], 0, 0, 374761393, 374761393);
    assert Avalanche(374761393) == 0x02cc5d05;
  }

  lemma OneByte()
    ensures Hash32([0x61]) == 0x550d7456
  {
    var s: seq<byte> := [0x61];
    LetterStep(374761394);
    LetterFinal(0x6506cbe8);
    assert Bits32(1) == 1;
    hide Bits32, ByteStep, Avalanche, Plus;
    LetterStart(374761393, s);
    HashFrom(s, 1, 0, 374761393, 374761394);
    assert BytesAfter(s, 374761394, 0, 0) == 374761394;
  }

  lemma LetterStart(h: word, s: seq<byte>)
    requires |s| == 1 && h == 374761393
    ensures Start(s) == h && Stripes(s) == 0 && Plus(h, 1) == 374761394
  {
  }

  lemma LetterStep(h: word)
    requires h == 374761394
    ensures ByteStep(h, 0x61) == 0x6506cbe8
  {
  }

  lemma LetterFinal(t: word)
    requires t == 0x6506cbe8
    ensures Avalanche(t) == 0x550d7456
  {
  }

  lemma OneWord()
    ensures Hash32([0x61, 0x62, 0x63, 0x64]) == 0xa3643705
  {
    var s: seq<byte> := [0x61, 0x62, 0x63, 0x64];
    assert WordAt(s, 0) == 0x64636261;
    assert Bits32(4) == 4;
    hide Bits32, WordAt;
    FourStep(374761397, 0x64636261);
    FourFinal(0x75275207);
    hide WordStep, Avalanche;
    HashFrom(s, 4, 4, 374761393, 0x75275207);
  }

  lemma FourStep(h: word, w: word)
    requires h == 374761397 && w == 0x64636261
    ensures WordStep(h, w) == 0x75275207
  {
  }

  lemma FourFinal(t: word)
    requires t == 0x75275207
    ensures Avalanche(t) == 0xa3643705
  {
  }

  /** "Nobody inspects the spammish repetition": two stripes, a word and three bytes. */
  function Sentence(): (s: seq<byte>)
    ensures |s| == 39
  {
    Stripe0() + Stripe1() + Remainder()
  }

  function Stripe0(): seq<byte> {
    [0x4e, 0x6f, 0x62, 0x6f, 0x64, 0x79, 0x20, 0x69, 0x6e, 0x73, 0x70, 0x65, 0x63, 0x74, 0x73, 0x20]
  }

  function Stripe1(): seq<byte> {
    [0x74, 0x68, 0x65, 0x20, 0x73, 0x70, 0x61, 0x6d, 0x6d, 0x69, 0x73, 0x68, 0x20, 0x72, 0x65, 0x70]
  }

  function Remainder(): seq<byte> {
    [0x65, 0x74, 0x69, 0x74, 0x69, 0x6f, 0x6e]
  }

  lemma WordInside(p: seq<byte>, s: seq<byte>, q: seq<byte>, k: nat, i: nat)
    requires |p| == 4 * k && 4 * i + 4 <= |s|
    ensures WordAt(p + s + q, k + i) == WordAt(s, i)
  {
    hide Concat4;
  }

  lemma Words0()
    ensures WordAt(Stripe0(), 0) == 0x6f626f4e && WordAt(Stripe0(), 1) == 0x69207964
    ensures WordAt(Stripe0(), 2) == 0x6570736e && WordAt(Stripe0(), 3) == 0x20737463
  {
  }

  lemma Words1()
    ensures WordAt(Stripe1(), 0) == 0x20656874 && WordAt(Stripe1(), 1) == 0x6d617073
    ensures WordAt(Stripe1(), 2) == 0x6873696d && WordAt(Stripe1(), 3) == 0x70657220
  {
  }

  lemma FirstStripe()
    ensures WordAt(Sentence(), 0) == 0x6f626f4e && WordAt(Sentence(), 1) == 0x69207964
    ensures WordAt(Sentence(), 2) == 0x6570736e && WordAt(Sentence(), 3) == 0x20737463
  {
    Words0();
    var s, q := Stripe0(), Stripe1() + Remainder();
    assert Sentence() == [] + s + q;
    hide WordAt, Stripe0, Stripe1, Remainder, Sentence;
    forall i: nat | i < 4 ensures WordAt(Sentence(), i) == WordAt(s, i) {
      WordInside([], s, q, 0, i);
    }
  }

  lemma SecondStripe()
    ensures WordAt(Sentence(), 4) == 0x20656874 && WordAt(Sentence(), 5) == 0x6d617073
    ensures WordAt(Sentence(), 6) == 0x6873696d && WordAt(Sentence(), 7) == 0x70657220
  {
    Words1();
    var p, s, q := Stripe0(), Stripe1(), Remainder();
    assert Sentence() == p + s + q && |p| == 16;
    hide WordAt, Stripe0, Stripe1, Remainder, Sentence;
    forall i: nat | i < 4 ensures WordAt(Sentence(), 4 + i) == WordAt(s, i) {
      WordInside(p, s, q, 4, i);
    }
  }

  lemma AfterStripes()
    ensures WordAt(Sentence(), 8) == 0x74697465
    ensures Sentence()[36] == 0x69 && Sentence()[37] == 0x6f && Sentence()[38] == 0x6e
  {
    assert WordAt(Remainder(), 0) == 0x74697465;
    var p, s := Stripe0() + Stripe1(), Remainder();
    assert Sentence() == p + s + [] && |p| == 32;
    hide WordAt, Stripe0, Stripe1;
    WordInside(p, s, [], 8, 0);
  }

  lemma TwoSteps(i: nat)
    requires i < 4
    ensures LaneAfter(Sentence(), i, 2) == Lane(Lane(LaneStart(i), WordAt(Sentence(), i)), WordAt(Sentence(), 4 + i))
  {
    hide WordAt, Lane, LaneStart, Sentence;
    var s := Sentence();
    assert LaneAfter(s, i, 1) == Lane(LaneAfter(s, i, 0), WordAt(s, i));
  }

  lemma SentenceStart()
    ensures Start(Sentence()) == 0x8c86b52d
  {
    FirstStripe();
    SecondStripe();
    TwoSteps(0);
    TwoSteps(1);
    TwoSteps(2);
    TwoSteps(3);
    var s := Sentence();
    assert Stripes(s) == 2;
    hide WordAt, LaneAfter, Sentence, Stripes;
    assert LaneAfter(s, 0, 2) == 0x719a836e && LaneAfter(s, 1, 2) == 0x514c1de8;
    assert LaneAfter(s, 2, 2) == 0x97fa4ba2 && LaneAfter(s, 3, 2) == 0x242a97a2;
  }

  lemma SentenceTail(m: word)
    requires m == 0x9b51544
    ensures BytesAfter(Sentence(), m, 36, 39) == 0xb3a7011b
  {
    AfterStripes();
    var s := Sentence();
    hide Sentence, WordAt;
    assert BytesAfter(s, m, 36, 37) == 0xcdefd3c9;
    assert BytesAfter(s, m, 36, 38) == 0x3852087b;
  }

  lemma LengthWord()
    ensures Bits32(39) == 39
  {
    Bits32Value(39);
    Same32(Bits32(39), 39);
  }

  lemma SentenceMiddle(h: word, m: word)
    requires h == 0x8c86b554 && m == 0x9b51544
    ensures WordsAfter(Sentence(), h, 8, 9) == m
  {
    var s := Sentence();
    AfterStripes();
    hide Sentence, WordAt;
    assert WordsAfter(s, h, 8, 8) == h;
  }

  lemma SentenceFinal(t: word)
    requires t == 0xb3a7011b
    ensures Avalanche(t) == 0xe2293b2f
  {
  }

  lemma SentenceSize()
    ensures Stripes(Sentence()) == 2 && Plus(0x8c86b52d, 39) == 0x8c86b554
  {
    hide Sentence;
  }

  /** The value published with the algorithm's bindings. */
  lemma WholeSentence()
    ensures Hash32(Sentence()) == 0xe2293b2f
  {
    var s := Sentence();
    SentenceSize();
    hide Bits32, WordsAfter, Start, Sentence, Stripes, BytesAfter, Avalanche, Plus, Hash32;
    LengthWord();
    SentenceStart();
    SentenceMiddle(0x8c86b554, 0x9b51544);
    SentenceTail(0x9b51544);
    HashFrom(s, 39, 36, 0x8c86b52d, 0x9b51544);
    SentenceFinal(0xb3a7011b);
  }
}
