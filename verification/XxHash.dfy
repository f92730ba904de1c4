/** The 32-bit xxHash under the instrument lookup. */
module XxHash {
  import opened Words

  const PRIME_1: word := 2654435761
  const PRIME_2: word := 2246822519
  const PRIME_5: word := 374761393

  // ----- the steps -----

  // multiplication by each of the five primes, modulo 2^32

  function Times1(x: word): word {
    x * 2654435761
  }

  function Times2(x: word): word {
    x * 2246822519
  }

  function Times3(x: word): word {
    x * 3266489917
  }

  function Times4(x: word): word {
    x * 668265263
  }

  function Times5(x: word): word {
    x * 374761393
  }

  /** h ^= h >> r */
  function FoldDown(x: word, r: bv6): word
    requires 0 < r < 32
  {
    x ^ (x >> r)
  }

  /** One lane takes in one word. */
  function Lane(v: word, w: word): word {
    Times1(Rotl(Plus(v, Times2(w)), 13))
  }

  function WordStep(h: word, w: word): word {
    Times4(Rotl(Plus(h, Times3(w)), 17))
  }

  function ByteStep(h: word, b: byte): word {
    Times1(Rotl(Plus(h, Times5(b as word)), 11))
  }

  /** The accumulators of the four lanes, brought together. */
  function Merge(v1: word, v2: word, v3: word, v4: word): word {
    Plus(Plus(Plus(Rotl(v1, 1), Rotl(v2, 7)), Rotl(v3, 12)), Rotl(v4, 18))
  }

  function Avalanche(h: word): word {
    FoldDown(Times3(FoldDown(Times2(FoldDown(h, 15)), 13)), 16)
  }

  // ----- the hash as a function -----

  /** The little-endian word that starts at byte 4 * k. */
  function WordAt(s: seq<byte>, k: nat): word
    requires 4 * k + 4 <= |s|
  {
    Concat4(s[4 * k + 3], s[4 * k + 2], s[4 * k + 1], s[4 * k])
  }

  function LaneStart(lane: nat): word {
    if lane == 0 then PRIME_1 + PRIME_2 else if lane == 1 then PRIME_2 else if lane == 2 then 0 else 0 - PRIME_1
  }

  /** Accumulator of one lane after n 16-byte stripes. */
  function LaneAfter(s: seq<byte>, lane: nat, n: nat): word
    requires lane < 4 && 16 * n <= |s|
  {
    if n == 0 then LaneStart(lane)
    else Lane(LaneAfter(s, lane, n - 1), WordAt(s, 4 * (n - 1) + lane))
  }

  /** h after the words from index i on, up to index n. */
  function WordsAfter(s: seq<byte>, h: word, i: nat, n: nat): word
    requires i <= n && 4 * n <= |s|
  {
    if n == i then h else WordStep(WordsAfter(s, h, i, n - 1), WordAt(s, n - 1))
  }

  /** h after the bytes from index i on, up to index n. */
  function BytesAfter(s: seq<byte>, h: word, i: nat, n: nat): word
    requires i <= n <= |s|
  {
    if n == i then h else ByteStep(BytesAfter(s, h, i, n - 1), s[n - 1])
  }

  function Stripes(s: seq<byte>): (n: nat)
    ensures 16 * n <= |s| < 16 * n + 16
  {
    |s| / 16
  }

  function Start(s: seq<byte>): word {
    var n := Stripes(s);
    if n > 0 then Merge(LaneAfter(s, 0, n), LaneAfter(s, 1, n), LaneAfter(s, 2, n), LaneAfter(s, 3, n))
    else PRIME_5
  }

  /** The accumulator before the tail. */
  function Middle(s: seq<byte>): word {
    WordsAfter(s, Plus(Start(s), Bits32(|s| % TWO32)), 4 * Stripes(s), |s| / 4)
  }

  function Hash32(s: seq<byte>): word {
    Avalanche(BytesAfter(s, Middle(s), 4 * (|s| / 4), |s|))
  }

  // ----- every step can be undone -----

  function Untimes1(x: word): word {
    x * 244002641
  }

  lemma Times1Back(x: word)
    ensures Untimes1(Times1(x)) == x
  {
    hide Times1, Untimes1;
    Times1Is(x);
    Untimes1Product(x);
  }

  lemma Times1Is(x: word)
    ensures Times1(x) == x * 2654435761
  {
  }

  lemma Untimes1Product(x: word)
    ensures Untimes1(x * 2654435761) == x
  {
  }

  function Untimes2(x: word): word {
    x * 3066638151
  }

  lemma Times2Back(x: word)
    ensures Untimes2(Times2(x)) == x
  {
    hide Times2, Untimes2;
    Times2Is(x);
    Untimes2Product(x);
  }

  lemma Times2Is(x: word)
    ensures Times2(x) == x * 2246822519
  {
  }

  lemma Untimes2Product(x: word)
    ensures Untimes2(x * 2246822519) == x
  {
  }

  function Untimes3(x: word): word {
    x * 2828982549
  }

  lemma Times3Back(x: word)
    ensures Untimes3(Times3(x)) == x
  {
    hide Times3, Untimes3;
    Times3Is(x);
    Untimes3Product(x);
  }

  lemma Times3Is(x: word)
    ensures Times3(x) == x * 3266489917
  {
  }

  lemma Untimes3Product(x: word)
    ensures Untimes3(x * 3266489917) == x
  {
  }

  function Untimes4(x: word): word {
    x * 2701016015
  }

  lemma Times4Back(x: word)
    ensures Untimes4(Times4(x)) == x
  {
    hide Times4, Untimes4;
    Times4Is(x);
    Untimes4Product(x);
  }

  lemma Times4Is(x: word)
    ensures Times4(x) == x * 668265263
  {
  }

  lemma Untimes4Product(x: word)
    ensures Untimes4(x * 668265263) == x
  {
  }

  function Untimes5(x: word): word {
    x * 2923004241
  }

  lemma Times5Back(x: word)
    ensures Untimes5(Times5(x)) == x
  {
    hide Times5, Untimes5;
    Times5Is(x);
    Untimes5Product(x);
  }

  lemma Times5Is(x: word)
    ensures Times5(x) == x * 374761393
  {
  }

  lemma Untimes5Product(x: word)
    ensures Untimes5(x * 374761393) == x
  {
  }

  lemma PlusBack(x: word, y: word)
    ensures Plus(Plus(x, y), 0 - y) == x
    ensures Plus(Plus(x, y), 0 - x) == y
  {
    calc { Plus(Plus(x, y), 0 - y); Plus(x + y, 0 - y); x + y + (0 - y); x; }
    calc { Plus(Plus(x, y), 0 - x); Plus(x + y, 0 - x); x + y + (0 - x); y; }
  }

  lemma Rotl1Back(x: word)
    ensures Rotl(Rotl(x, 1), 31) == x
  {
  }

  lemma Rotl7Back(x: word)
    ensures Rotl(Rotl(x, 7), 25) == x
  {
  }

  lemma Rotl12Back(x: word)
    ensures Rotl(Rotl(x, 12), 20) == x
  {
  }

  lemma Rotl18Back(x: word)
    ensures Rotl(Rotl(x, 18), 14) == x
  {
  }

  lemma Rotl13Back(x: word)
    ensures Rotl(Rotl(x, 13), 19) == x
  {
  }

  lemma Rotl17Back(x: word)
    ensures Rotl(Rotl(x, 17), 15) == x
  {
  }

  lemma Rotl11Back(x: word)
    ensures Rotl(Rotl(x, 11), 21) == x
  {
  }

  function Unfold15(t: word): word {
    t ^ (t >> 15) ^ (t >> 30)
  }

  lemma Fold15Back(x: word)
    ensures Unfold15(FoldDown(x, 15)) == x
  {
    hide FoldDown, Unfold15;
    Fold15Is(x);
    Unfold15Folded(x);
  }

  lemma Fold15Is(x: word)
    ensures FoldDown(x, 15) == x ^ (x >> 15)
  {
  }

  lemma Unfold15Folded(x: word)
    ensures Unfold15(x ^ (x >> 15)) == x
  {
  }

  function Unfold13(t: word): word {
    t ^ (t >> 13) ^ (t >> 26)
  }

  lemma Fold13Back(x: word)
    ensures Unfold13(FoldDown(x, 13)) == x
  {
    hide FoldDown, Unfold13;
    Fold13Is(x);
    Unfold13Folded(x);
  }

  lemma Fold13Is(x: word)
    ensures FoldDown(x, 13) == x ^ (x >> 13)
  {
  }

  lemma Unfold13Folded(x: word)
    ensures Unfold13(x ^ (x >> 13)) == x
  {
  }

  function Unfold16(t: word): word {
    t ^ (t >> 16)
  }

  lemma Fold16Back(x: word)
    ensures Unfold16(FoldDown(x, 16)) == x
  {
    hide FoldDown, Unfold16;
    Fold16Is(x);
    Unfold16Folded(x);
  }

  lemma Fold16Is(x: word)
    ensures FoldDown(x, 16) == x ^ (x >> 16)
  {
  }

  lemma Unfold16Folded(x: word)
    ensures Unfold16(x ^ (x >> 16)) == x
  {
  }

  // ----- every step is injective in each of its arguments -----

  lemma PlusInjective(x: word, y: word, x': word, y': word)
    requires Plus(x, y) == Plus(x', y')
    ensures x == x' <==> y == y'
  {
    hide Plus;
    PlusBack(x, y);
    PlusBack(x', y');
  }

  /** From equal accumulators different words lead apart, and equal words never
      bring different accumulators together. */
  lemma LaneInjective(v: word, w: word, v': word, w': word)
    requires Lane(v, w) == Lane(v', w')
    ensures v == v' <==> w == w'
  {
    hide Times1, Times2, Rotl, Plus, Untimes1, Untimes2;
    var p, p' := Plus(v, Times2(w)), Plus(v', Times2(w'));
    Times1Back(Rotl(p, 13));
    Times1Back(Rotl(p', 13));
    Rotl13Back(p);
    Rotl13Back(p');
    PlusInjective(v, Times2(w), v', Times2(w'));
    Times2Back(w);
    Times2Back(w');
  }

  lemma WordStepInjective(h: word, w: word, h': word, w': word)
    requires WordStep(h, w) == WordStep(h', w')
    ensures h == h' <==> w == w'
  {
    hide Times3, Times4, Rotl, Plus, Untimes3, Untimes4;
    var p, p' := Plus(h, Times3(w)), Plus(h', Times3(w'));
    Times4Back(Rotl(p, 17));
    Times4Back(Rotl(p', 17));
    Rotl17Back(p);
    Rotl17Back(p');
    PlusInjective(h, Times3(w), h', Times3(w'));
    Times3Back(w);
    Times3Back(w');
  }

  lemma ByteStepInjective(h: word, b: byte, h': word, b': byte)
    requires ByteStep(h, b) == ByteStep(h', b')
    ensures h == h' <==> b == b'
  {
    hide Times1, Times5, Rotl, Plus, Untimes1, Untimes5;
    var p, p' := Plus(h, Times5(b as word)), Plus(h', Times5(b' as word));
    Times1Back(Rotl(p, 11));
    Times1Back(Rotl(p', 11));
    Rotl11Back(p);
    Rotl11Back(p');
    PlusInjective(h, Times5(b as word), h', Times5(b' as word));
    Times5Back(b as word);
    Times5Back(b' as word);
    if b as word == b' as word {
      Widen(b, b');
    }
  }

  lemma Widen(b: byte, b': byte)
    requires b as word == b' as word
    ensures b == b'
  {
  }

  lemma AvalancheInjective(h: word, h': word)
    requires Avalanche(h) == Avalanche(h')
    ensures h == h'
  {
    hide FoldDown, Times2, Times3, Unfold15, Unfold13, Unfold16, Untimes2, Untimes3;
    var a, a' := FoldDown(h, 15), FoldDown(h', 15);
    var b, b' := FoldDown(Times2(a), 13), FoldDown(Times2(a'), 13);
    Fold16Back(Times3(b));
    Fold16Back(Times3(b'));
    Times3Back(b);
    Times3Back(b');
    Fold13Back(Times2(a));
    Fold13Back(Times2(a'));
    Times2Back(a);
    Times2Back(a');
    Fold15Back(h);
    Fold15Back(h');
  }

  lemma MergeInjective(v: seq<word>, v': seq<word>, lane: nat)
    requires |v| == |v'| == 4 && lane < 4
    requires forall i :: 0 <= i < 4 && i != lane ==> v[i] == v'[i]
    requires Merge(v[0], v[1], v[2], v[3]) == Merge(v'[0], v'[1], v'[2], v'[3])
    ensures v[lane] == v'[lane]
  {
    hide Rotl, Plus;
    var p, p' := Rotl(v[0], 1), Rotl(v'[0], 1);
    var q, q' := Rotl(v[1], 7), Rotl(v'[1], 7);
    var r, r' := Rotl(v[2], 12), Rotl(v'[2], 12);
    var t, t' := Rotl(v[3], 18), Rotl(v'[3], 18);
    PlusInjective(Plus(Plus(p, q), r), t, Plus(Plus(p', q'), r'), t');
    if lane < 3 {
      PlusInjective(Plus(p, q), r, Plus(p', q'), r');
    }
    if lane < 2 {
      PlusInjective(p, q, p', q');
    }
    Rotl1Back(v[0]);
    Rotl1Back(v'[0]);
    Rotl7Back(v[1]);
    Rotl7Back(v'[1]);
    Rotl12Back(v[2]);
    Rotl12Back(v'[2]);
    Rotl18Back(v[3]);
    Rotl18Back(v'[3]);
  }

  // ----- runs over the input -----

  lemma {:induction false} LaneSame(x: seq<byte>, y: seq<byte>, lane: nat, n: nat)
    requires lane < 4 && 16 * n <= |x| && 16 * n <= |y|
    requires forall i: nat :: i < n ==> WordAt(x, 4 * i + lane) == WordAt(y, 4 * i + lane)
    ensures LaneAfter(x, lane, n) == LaneAfter(y, lane, n)
  {
    hide WordAt, Lane;
    if n > 0 {
      LaneSame(x, y, lane, n - 1);
    }
  }

  lemma {:induction false} LaneDiffers(x: seq<byte>, y: seq<byte>, lane: nat, j: nat, n: nat)
    requires lane < 4 && j < n && 16 * n <= |x| && 16 * n <= |y|
    requires forall i: nat :: i < n && i != j ==> WordAt(x, 4 * i + lane) == WordAt(y, 4 * i + lane)
    requires WordAt(x, 4 * j + lane) != WordAt(y, 4 * j + lane)
    ensures LaneAfter(x, lane, n) != LaneAfter(y, lane, n)
  {
    hide WordAt, Lane;
    if n - 1 == j {
      LaneSame(x, y, lane, j);
    } else {
      LaneDiffers(x, y, lane, j, n - 1);
    }
    if LaneAfter(x, lane, n) == LaneAfter(y, lane, n) {
      LaneInjective(LaneAfter(x, lane, n - 1), WordAt(x, 4 * (n - 1) + lane),
        LaneAfter(y, lane, n - 1), WordAt(y, 4 * (n - 1) + lane));
    }
  }

  lemma {:induction false} WordsInjective(x: seq<byte>, y: seq<byte>, h: word, h': word, i: nat, n: nat)
    requires i <= n && 4 * n <= |x| && 4 * n <= |y|
    requires forall k: nat :: i <= k < n ==> WordAt(x, k) == WordAt(y, k)
    ensures WordsAfter(x, h, i, n) == WordsAfter(y, h', i, n) <==> h == h'
    decreases n - i
  {
    hide WordAt, WordStep;
    if i < n {
      WordsInjective(x, y, h, h', i, n - 1);
      if WordsAfter(x, h, i, n) == WordsAfter(y, h', i, n) {
        WordStepInjective(WordsAfter(x, h, i, n - 1), WordAt(x, n - 1), WordsAfter(y, h', i, n - 1), WordAt(y, n - 1));
      }
    }
  }

  lemma {:induction false} WordsDiffer(x: seq<byte>, y: seq<byte>, h: word, i: nat, j: nat, n: nat)
    requires i <= j < n && 4 * n <= |x| && 4 * n <= |y|
    requires forall k: nat :: i <= k < n && k != j ==> WordAt(x, k) == WordAt(y, k)
    requires WordAt(x, j) != WordAt(y, j)
    ensures WordsAfter(x, h, i, n) != WordsAfter(y, h, i, n)
    decreases n - i
  {
    hide WordAt, WordStep;
    if n - 1 == j {
      WordsInjective(x, y, h, h, i, j);
    } else {
      WordsDiffer(x, y, h, i, j, n - 1);
    }
    if WordsAfter(x, h, i, n) == WordsAfter(y, h, i, n) {
      WordStepInjective(WordsAfter(x, h, i, n - 1), WordAt(x, n - 1), WordsAfter(y, h, i, n - 1), WordAt(y, n - 1));
    }
  }

  lemma {:induction false} BytesInjective(x: seq<byte>, y: seq<byte>, h: word, h': word, i: nat, n: nat)
    requires i <= n <= |x| && n <= |y|
    requires forall k :: i <= k < n ==> x[k] == y[k]
    ensures BytesAfter(x, h, i, n) == BytesAfter(y, h', i, n) <==> h == h'
    decreases n - i
  {
    hide ByteStep;
    if i < n {
      BytesInjective(x, y, h, h', i, n - 1);
      if BytesAfter(x, h, i, n) == BytesAfter(y, h', i, n) {
        ByteStepInjective(BytesAfter(x, h, i, n - 1), x[n - 1], BytesAfter(y, h', i, n - 1), y[n - 1]);
      }
    }
  }

  lemma {:induction false} BytesDiffer(x: seq<byte>, y: seq<byte>, h: word, i: nat, j: nat, n: nat)
    requires i <= j < n <= |x| && n <= |y|
    requires forall k :: i <= k < n && k != j ==> x[k] == y[k]
    requires x[j] != y[j]
    ensures BytesAfter(x, h, i, n) != BytesAfter(y, h, i, n)
    decreases n - i
  {
    hide ByteStep;
    if n - 1 == j {
      BytesInjective(x, y, h, h, i, j);
    } else {
      BytesDiffer(x, y, h, i, j, n - 1);
    }
    if BytesAfter(x, h, i, n) == BytesAfter(y, h, i, n) {
      ByteStepInjective(BytesAfter(x, h, i, n - 1), x[n - 1], BytesAfter(y, h, i, n - 1), y[n - 1]);
    }
  }

  // ----- no collision on inputs that differ in one place -----

  /** x and y differ, and only inside the aligned four-byte word k. */
  ghost predicate DifferInWord(x: seq<byte>, y: seq<byte>, k: nat) {
    && |x| == |y| && 4 * k + 4 <= |x|
    && (exists i :: 4 * k <= i < 4 * k + 4 && x[i] != y[i])
    && forall i :: 0 <= i < |x| && !(4 * k <= i < 4 * k + 4) ==> x[i] == y[i]
  }

  /** x and y differ, and only in the byte i after the last whole word. */
  ghost predicate DifferInTail(x: seq<byte>, y: seq<byte>, i: nat) {
    && |x| == |y| && 4 * (|x| / 4) <= i < |x| && x[i] != y[i]
    && forall k :: 0 <= k < |x| && k != i ==> x[k] == y[k]
  }

  lemma Concat4Injective(a: byte, b: byte, c: byte, d: byte, a': byte, b': byte, c': byte, d': byte)
    requires Concat4(a, b, c, d) == Concat4(a', b', c', d')
    ensures a == a' && b == b' && c == c' && d == d'
  {
  }

  lemma OtherWordsSame(x: seq<byte>, y: seq<byte>, k: nat)
    requires DifferInWord(x, y, k)
    ensures forall i: nat :: 4 * i + 4 <= |x| && i != k ==> WordAt(x, i) == WordAt(y, i)
    ensures WordAt(x, k) != WordAt(y, k)
  {
    hide Concat4;
    if WordAt(x, k) == WordAt(y, k) {
      Concat4Injective(x[4 * k + 3], x[4 * k + 2], x[4 * k + 1], x[4 * k],
        y[4 * k + 3], y[4 * k + 2], y[4 * k + 1], y[4 * k]);
    }
  }

  lemma StartDiffers(x: seq<byte>, y: seq<byte>, k: nat)
    requires DifferInWord(x, y, k) && k < 4 * Stripes(x)
    ensures Start(x) != Start(y)
  {
    hide WordAt, Merge, LaneAfter;
    var n, lane, j := Stripes(x), k % 4, k / 4;
    OtherWordsSame(x, y, k);
    forall i | 0 <= i < 4 && i != lane ensures LaneAfter(x, i, n) == LaneAfter(y, i, n) {
      LaneSame(x, y, i, n);
    }
    LaneDiffers(x, y, lane, j, n);
    if Start(x) == Start(y) {
      MergeInjective(
        [LaneAfter(x, 0, n), LaneAfter(x, 1, n), LaneAfter(x, 2, n), LaneAfter(x, 3, n)],
        [LaneAfter(y, 0, n), LaneAfter(y, 1, n), LaneAfter(y, 2, n), LaneAfter(y, 3, n)], lane);
    }
  }

  lemma StartSame(x: seq<byte>, y: seq<byte>)
    requires |x| == |y|
    requires forall i: nat :: i < 4 * Stripes(x) ==> WordAt(x, i) == WordAt(y, i)
    ensures Start(x) == Start(y)
  {
    hide WordAt, Merge, LaneAfter;
    var n := Stripes(x);
    forall lane: nat | lane < 4 ensures LaneAfter(x, lane, n) == LaneAfter(y, lane, n) {
      LaneSame(x, y, lane, n);
    }
  }

  lemma MiddleDiffers(x: seq<byte>, y: seq<byte>, k: nat)
    requires DifferInWord(x, y, k)
    ensures Middle(x) != Middle(y)
  {
    hide WordAt, WordsAfter, Start, Plus, Bits32;
    var n, size := 4 * Stripes(x), Bits32(|x| % TWO32);
    OtherWordsSame(x, y, k);
    if k < n {
      StartDiffers(x, y, k);
      WordsInjective(x, y, Plus(Start(x), size), Plus(Start(y), size), n, |x| / 4);
      if Plus(Start(x), size) == Plus(Start(y), size) {
        PlusInjective(Start(x), size, Start(y), size);
      }
    } else {
      StartSame(x, y);
      WordsDiffer(x, y, Plus(Start(x), size), n, k, |x| / 4);
    }
  }

  /** Two inputs of one length that differ in one aligned word hash differently. */
  lemma NoCollisionInWord(x: seq<byte>, y: seq<byte>, k: nat)
    requires DifferInWord(x, y, k)
    ensures Hash32(x) != Hash32(y)
  {
    hide Middle, Avalanche, BytesAfter;
    MiddleDiffers(x, y, k);
    BytesInjective(x, y, Middle(x), Middle(y), 4 * (|x| / 4), |x|);
    if Hash32(x) == Hash32(y) {
      AvalancheInjective(BytesAfter(x, Middle(x), 4 * (|x| / 4), |x|), BytesAfter(y, Middle(y), 4 * (|x| / 4), |x|));
    }
  }

  /** So do two inputs of one length that differ in one byte of the tail. */
  lemma NoCollisionInTail(x: seq<byte>, y: seq<byte>, i: nat)
    requires DifferInTail(x, y, i)
    ensures Hash32(x) != Hash32(y)
  {
    hide Avalanche, BytesAfter, WordsAfter, Start, Plus, Bits32;
    var t := 4 * (|x| / 4);
    forall k: nat | 4 * k + 4 <= |x| ensures WordAt(x, k) == WordAt(y, k) {
    }
    hide WordAt;
    StartSame(x, y);
    WordsInjective(x, y, Plus(Start(x), Bits32(|x| % TWO32)), Plus(Start(y), Bits32(|x| % TWO32)),
      4 * Stripes(x), |x| / 4);
    assert Middle(x) == Middle(y);
    BytesDiffer(x, y, Middle(x), t, i, |x|);
    if Hash32(x) == Hash32(y) {
      AvalancheInjective(BytesAfter(x, Middle(x), t, |x|), BytesAfter(y, Middle(y), t, |x|));
    }
  }

  // ----- the hash as the code runs it -----

  method ReadWord(s: seq<byte>, p: nat, ghost k: nat) returns (w: word)
    requires p == 4 * k && p + 4 <= |s|
    ensures w == WordAt(s, k)
  {
    w := Concat4(s[p + 3], s[p + 2], s[p + 1], s[p]);
  }

  lemma LaneBegin(s: seq<byte>)
    ensures LaneAfter(s, 0, 0) == PRIME_1 + PRIME_2 && LaneAfter(s, 1, 0) == PRIME_2
    ensures LaneAfter(s, 2, 0) == 0 && LaneAfter(s, 3, 0) == 0 - PRIME_1
  {
  }

  lemma LaneStep(s: seq<byte>, lane: nat, n: nat)
    requires lane < 4 && 16 * n + 16 <= |s|
    ensures LaneAfter(s, lane, n + 1) == Lane(LaneAfter(s, lane, n), WordAt(s, 4 * n + lane))
  {
    hide WordAt, Lane;
  }

  /** One stripe: each lane takes in one word. */
  method Stripe(input: seq<byte>, from: nat, ghost n: nat, a1: word, a2: word, a3: word, a4: word)
      returns (v1: word, v2: word, v3: word, v4: word, p: nat)
    requires from == 16 * n && from + 16 <= |input|
    ensures p == from + 16
    ensures v1 == Lane(a1, WordAt(input, 4 * n)) && v2 == Lane(a2, WordAt(input, 4 * n + 1))
    ensures v3 == Lane(a3, WordAt(input, 4 * n + 2)) && v4 == Lane(a4, WordAt(input, 4 * n + 3))
  {
    hide WordAt, Lane;
    p := from;
    var w := ReadWord(input, p, 4 * n);
    v1 := Lane(a1, w);
    p := p + 4;
    w := ReadWord(input, p, 4 * n + 1);
    v2 := Lane(a2, w);
    p := p + 4;
    w := ReadWord(input, p, 4 * n + 2);
    v3 := Lane(a3, w);
    p := p + 4;
    w := ReadWord(input, p, 4 * n + 3);
    v4 := Lane(a4, w);
    p := p + 4;
  }

  /** The four lanes over the whole stripes. */
  method HashStripes(input: seq<byte>) returns (h32: word, p: nat)
    requires |input| >= 16
    ensures h32 == Start(input) && p == 16 * Stripes(input)
  {
    hide WordAt, Lane, LaneAfter, Merge;
    p := 0;
    var limit := |input| - 16;
    var v1, v2, v3, v4 := PRIME_1 + PRIME_2, PRIME_2, 0, 0 - PRIME_1;
    LaneBegin(input);
    ghost var n := 0;
    while p <= limit
      invariant p == 16 * n && p <= |input|
      invariant v1 == LaneAfter(input, 0, n) && v2 == LaneAfter(input, 1, n)
      invariant v3 == LaneAfter(input, 2, n) && v4 == LaneAfter(input, 3, n)
    {
      LaneStep(input, 0, n);
      LaneStep(input, 1, n);
      LaneStep(input, 2, n);
      LaneStep(input, 3, n);
      v1, v2, v3, v4, p := Stripe(input, p, n, v1, v2, v3, v4);
      n := n + 1;
    }
    h32 := Merge(v1, v2, v3, v4);
  }

  /** The words that do not fill a stripe. */
  method HashWords(input: seq<byte>, h: word, from: nat) returns (h32: word, p: nat)
    requires from % 4 == 0 && from <= |input|
    ensures p == 4 * (|input| / 4) && h32 == WordsAfter(input, h, from / 4, |input| / 4)
  {
    hide WordAt, WordStep;
    h32, p := h, from;
    while p + 4 <= |input|
      invariant p % 4 == 0 && from <= p <= |input|
      invariant h32 == WordsAfter(input, h, from / 4, p / 4)
    {
      var w := ReadWord(input, p, p / 4);
      h32 := WordStep(h32, w);
      p := p + 4;
    }
  }

  method HashBytes(input: seq<byte>, h: word, from: nat) returns (h32: word)
    requires from <= |input|
    ensures h32 == BytesAfter(input, h, from, |input|)
  {
    hide ByteStep;
    var p := from;
    h32 := h;
    while p < |input|
      invariant from <= p <= |input|
      invariant h32 == BytesAfter(input, h, from, p)
    {
      h32 := ByteStep(h32, input[p]);
      p := p + 1;
    }
  }

  lemma StartShort(input: seq<byte>)
    requires |input| < 16
    ensures Start(input) == PRIME_5 && Stripes(input) == 0
  {
    hide Merge, LaneAfter;
  }

  lemma WholeWords(n: nat)
    ensures (16 * n) % 4 == 0 && 16 * n / 4 == 4 * n
  {
  }

  /** The hash in the order it is computed in. */
  lemma HashIs(input: seq<byte>)
    ensures Middle(input)
      == WordsAfter(input, Plus(Start(input), Bits32(|input| % TWO32)), 4 * Stripes(input), |input| / 4)
    ensures Hash32(input) == FoldDown(Times3(FoldDown(Times2(FoldDown(
      BytesAfter(input, Middle(input), 4 * (|input| / 4), |input|), 15)), 13)), 16)
  {
    hide Start, Stripes, Plus, WordsAfter, BytesAfter, FoldDown, Times2, Times3, Bits32;
  }

  method Hash(input: seq<byte>) returns (h32: word)
    ensures h32 == Hash32(input)
  {
    HashIs(input);
    WholeWords(Stripes(input));
    hide Hash32, Middle, Start, Stripes, Plus, WordsAfter, BytesAfter, FoldDown, Times2, Times3, Bits32;
    var p: nat := 0;
    if |input| >= 16 {
      h32, p := HashStripes(input);
    } else {
      StartShort(input);
      h32 := PRIME_5;
    }
    h32 := Plus(h32, Bits32(|input| % TWO32));
    h32, p := HashWords(input, h32, p);
    h32 := HashBytes(input, h32, p);
    h32 := FoldDown(h32, 15);
    h32 := Times2(h32);
    h32 := FoldDown(h32, 13);
    h32 := Times3(h32);
    h32 := FoldDown(h32, 16);
  }
}

/** The instruments the venue trades and how a message names one of them. */
module Instruments {
  import opened Words
  import opened XxHash

  /** The instrument names given on the command line: each is kept with its
      hash, and only the hashes are compared afterwards. */
  class Registry {
    var insth: seq<word>
    ghost var names: seq<seq<byte>>

    ghost predicate Valid()
      reads this
    {
      |insth| == |names| && forall j :: 0 <= j < |names| ==> insth[j] == Hash32(names[j])
    }

    constructor (args: seq<seq<byte>>)
      ensures Valid() && names == args
    {
      insth := [];
      names := args;
      new;
      for i := 0 to |args|
        invariant names == args && |insth| == i
        invariant forall j :: 0 <= j < i ==> insth[j] == Hash32(args[j])
      {
        hide Hash32;
        var h := Hash(args[i]);
        insth := insth + [h];
      }
    }

    /** The index an instrument name stands for, or None; the empty name always
        stands for the first instrument. */
    method Hins(ins: seq<byte>) returns (r: Lookup)
      requires Valid()
      ensures r == Find(names, ins)
    {
      hide Hash32;
      if |ins| == 0 {
        return Index(0);
      }
      var h := Hash(ins);
      for j := 0 to |insth|
        invariant forall i :: 0 <= i < j ==> Hash32(names[i]) != Hash32(ins)
      {
        if insth[j] == h {
          FindFirst(names, ins, j);
          return Index(j);
        }
      }
      FindNone(names, ins);
      return NotFound;
    }
  }

  datatype Lookup = Index(index: nat) | NotFound

  /** The first name with the same hash. */
  function Find(names: seq<seq<byte>>, ins: seq<byte>): Lookup {
    if ins == [] then Index(0) else FindFrom(names, ins, 0)
  }

  function FindFrom(names: seq<seq<byte>>, ins: seq<byte>, j: nat): Lookup
    decreases |names| - j
  {
    if j >= |names| then NotFound
    else if Hash32(names[j]) == Hash32(ins) then Index(j)
    else FindFrom(names, ins, j + 1)
  }

  lemma {:induction false} FindFromFirst(names: seq<seq<byte>>, ins: seq<byte>, from: nat, j: nat)
    requires from <= j < |names| && Hash32(names[j]) == Hash32(ins)
    requires forall i :: from <= i < j ==> Hash32(names[i]) != Hash32(ins)
    ensures FindFrom(names, ins, from) == Index(j)
    decreases j - from
  {
    hide Hash32;
    if from < j {
      FindFromFirst(names, ins, from + 1, j);
    }
  }

  lemma FindFirst(names: seq<seq<byte>>, ins: seq<byte>, j: nat)
    requires ins != [] && j < |names| && Hash32(names[j]) == Hash32(ins)
    requires forall i :: 0 <= i < j ==> Hash32(names[i]) != Hash32(ins)
    ensures Find(names, ins) == Index(j)
  {
    FindFromFirst(names, ins, 0, j);
  }

  lemma {:induction false} FindFromNone(names: seq<seq<byte>>, ins: seq<byte>, from: nat)
    requires from <= |names|
    requires forall i :: from <= i < |names| ==> Hash32(names[i]) != Hash32(ins)
    ensures FindFrom(names, ins, from) == NotFound
    decreases |names| - from
  {
    hide Hash32;
    if from < |names| {
      FindFromNone(names, ins, from + 1);
    }
  }

  lemma FindNone(names: seq<seq<byte>>, ins: seq<byte>)
    requires ins != []
    requires forall i :: 0 <= i < |names| ==> Hash32(names[i]) != Hash32(ins)
    ensures Find(names, ins) == NotFound
  {
    FindFromNone(names, ins, 0);
  }

  ghost predicate DistinctHashes(names: seq<seq<byte>>) {
    forall i, j :: 0 <= i < j < |names| ==> Hash32(names[i]) != Hash32(names[j])
  }

  /** Every registered name is found under its own index exactly when the
      registered hashes are distinct and no name but the first is empty: an empty
      name is found at index 0 wherever it stands. */
  lemma RegisteredAreFound(names: seq<seq<byte>>)
    ensures (forall j :: 0 <= j < |names| ==> Find(names, names[j]) == Index(j))
      <==> DistinctHashes(names) && forall j :: 0 < j < |names| ==> names[j] != []
  {
    hide Hash32, FindFrom;
    if DistinctHashes(names) && forall j :: 0 < j < |names| ==> names[j] != [] {
      forall j | 0 <= j < |names| ensures Find(names, names[j]) == Index(j) {
        if names[j] != [] {
          FindFirst(names, names[j], j);
        }
      }
    }
    if forall j :: 0 <= j < |names| ==> Find(names, names[j]) == Index(j) {
      forall i, j | 0 <= i < j < |names| ensures Hash32(names[i]) != Hash32(names[j]) {
        if Hash32(names[i]) == Hash32(names[j]) {
          FoundBy(names, names[j], 0, i);
        }
      }
      forall j | 0 < j < |names| ensures names[j] != [] {
        assert Find(names, names[j]) == Index(j);
      }
    }
  }

  lemma {:induction false} FoundBy(names: seq<seq<byte>>, ins: seq<byte>, from: nat, i: nat)
    requires from <= i < |names| && Hash32(names[i]) == Hash32(ins)
    ensures var r := FindFrom(names, ins, from); r.Index? && r.index <= i
    decreases i - from
  {
    hide Hash32;
    if from < i {
      FoundBy(names, ins, from + 1, i);
    }
  }

  /** A name that differs from the one at index j in a single aligned word or a
      single tail byte is never taken for it. */
  lemma NearMissIsNotTaken(names: seq<seq<byte>>, ins: seq<byte>, j: nat, at: nat)
    requires j < |names| && ins != []
    requires DifferInWord(ins, names[j], at) || DifferInTail(ins, names[j], at)
    ensures Find(names, ins) != Index(j)
  {
    hide Hash32;
    if DifferInWord(ins, names[j], at) {
      NoCollisionInWord(ins, names[j], at);
    } else {
      NoCollisionInTail(ins, names[j], at);
    }
    FoundHasHash(names, ins, 0);
  }

  lemma {:induction false} FoundHasHash(names: seq<seq<byte>>, ins: seq<byte>, from: nat)
    ensures var r := FindFrom(names, ins, from);
      r.Index? ==> r.index < |names| && Hash32(names[r.index]) == Hash32(ins)
    decreases |names| - from
  {
    hide Hash32;
    if from < |names| {
      FoundHasHash(names, ins, from + 1);
    }
  }
}
