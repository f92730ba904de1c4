/** The PCG32 generator: seeding, drawing, and drawing below a bound. */
module Pcg {
  import opened Words
  import opened Counting
  import opened Lcg
  import opened Arith

  // ----- the output permutation -----

  function RotateRight(x: bv32, r: bv6): bv32
    requires r < 32
  {
    (x >> r) | (x << ((0 - r) & 31))
  }

  function RotateLeft(x: bv32, r: bv6): bv32
    requires r < 32
  {
    (x << r) | (x >> ((0 - r) & 31))
  }

  function XorShift(s: bv64): bv64 {
    (s >> 18) ^ s
  }

  /** The middle of the xor-shifted state, cut to 32 bits by the assignment. */
  function XorShifted(s: bv64): bv32 {
    Middle(XorShift(s))
  }

  function Middle(t: bv64): bv32 {
    ((t >> 27) & 0xffff_ffff) as bv32
  }

  function Rotation(s: bv64): (r: bv6)
    ensures r < 32
  {
    (s >> 59) as bv6
  }

  /** What one draw returns for the state it started from. */
  function OutputBits(s: bv64): bv32 {
    RotateRight(XorShifted(s), Rotation(s))
  }

  function Output(state: u64): u32 {
    OutputBits(Bits64(state)) as nat
  }

  predicate Bit32(w: bv32, i: bv6)
    requires i < 32
  {
    (w >> i) & 1 == 1
  }

  predicate Bit64(w: bv64, i: bv6) {
    (w >> i) & 1 == 1
  }

  /** Which bit of the state, xored with what is 18 places above, each bit of the
      output is: the 32 from the 27th on, turned right by the five on top. */
  lemma OutputBit(s: bv64, i: bv6)
    requires i < 32
    ensures Bit32(OutputBits(s), i) <==> Bit64(s ^ (s >> 18), 27 + (i + ((s >> 59) as bv6)) % 32)
  {
    hide OutputBits, Bit32, Bit64, XorShifted, Rotation;
    TurnedBit(XorShifted(s), Rotation(s), i);
    MiddleBit(s ^ (s >> 18), (i + Rotation(s)) % 32);
    OutputParts(s);
  }

  lemma OutputParts(s: bv64)
    ensures OutputBits(s) == RotateRight(XorShifted(s), Rotation(s)) && Rotation(s) == (s >> 59) as bv6
    ensures XorShifted(s) == Middle(s ^ (s >> 18))
  {
  }

  lemma TurnedBit(x: bv32, r: bv6, i: bv6)
    requires r < 32 && i < 32
    ensures Bit32(RotateRight(x, r), i) <==> Bit32(x, (i + r) % 32)
  {
    hide Bit32, RotateRight, Shr, Shl, Or, Opposite;
    Around(i, r);
    TurnParts(x, r);
    OrBit(Shr(x, r), Shl(x, Opposite(r)), i);
    ShrBit(x, r, i);
    ShlBit(x, Opposite(r), i);
    OppositeIs(r, i);
  }

  lemma Around(i: bv6, r: bv6)
    requires i < 32 && r < 32
    ensures (i + r) % 32 == if i + r < 32 then i + r else i + r - 32
  {
  }

  function Shr(x: bv32, r: bv6): bv32
    requires r < 32
  {
    x >> r
  }

  function Shl(x: bv32, k: bv6): bv32
    requires k < 32
  {
    x << k
  }

  function Or(a: bv32, b: bv32): bv32 {
    a | b
  }

  function Opposite(r: bv6): (k: bv6)
    ensures k < 32
  {
    (0 - r) & 31
  }

  lemma TurnParts(x: bv32, r: bv6)
    requires r < 32
    ensures RotateRight(x, r) == Or(Shr(x, r), Shl(x, Opposite(r)))
  {
  }

  lemma OrBit(a: bv32, b: bv32, i: bv6)
    requires i < 32
    ensures Bit32(Or(a, b), i) <==> Bit32(a, i) || Bit32(b, i)
  {
  }

  lemma ShrBit(x: bv32, r: bv6, i: bv6)
    requires r < 32 && i < 32
    ensures Bit32(Shr(x, r), i) <==> i + r < 32 && Bit32(x, i + r)
  {
  }

  lemma ShlBit(x: bv32, k: bv6, i: bv6)
    requires k < 32 && i < 32
    ensures Bit32(Shl(x, k), i) <==> k <= i && Bit32(x, i - k)
  {
  }

  lemma OppositeIs(r: bv6, i: bv6)
    requires r < 32 && i < 32
    ensures r == 0 ==> Opposite(r) == 0 && i + r < 32 && i + r == i == i - Opposite(r)
    ensures r > 0 ==> (Opposite(r) <= i <==> !(i + r < 32))
    ensures r > 0 && !(i + r < 32) ==> i - Opposite(r) == i + r - 32
  {
  }

  lemma MiddleBit(t: bv64, i: bv6)
    requires i < 32
    ensures Bit32(Middle(t), i) <==> Bit64(t, 27 + i)
  {
  }

  lemma RotationsInverse(x: bv32, r: bv6)
    requires r < 32
    ensures RotateLeft(RotateRight(x, r), r) == x
    ensures RotateRight(RotateLeft(x, r), r) == x
  {
    RotateRightLeft(x, r);
    RotateLeftRight(x, r);
  }

  lemma RotateRightLeft(x: bv32, r: bv6)
    requires r < 32
    ensures RotateLeft(RotateRight(x, r), r) == x
  {
  }

  lemma RotateLeftRight(x: bv32, r: bv6)
    requires r < 32
    ensures RotateRight(RotateLeft(x, r), r) == x
  {
  }

  // ----- every output comes from exactly 2^32 states -----

  function UnXorShift(t: bv64): bv64 {
    t ^ (t >> 18) ^ (t >> 36) ^ (t >> 54)
  }

  lemma UnXorShiftAfter(s: bv64)
    ensures UnXorShift(XorShift(s)) == s
  {
    calc {
      UnXorShift(XorShift(s));
      UnXorShift((s >> 18) ^ s);
      { UnXorShiftShifted(s); }
      s;
    }
  }

  lemma UnXorShiftShifted(s: bv64)
    ensures UnXorShift((s >> 18) ^ s) == s
  {
  }

  lemma UnXorShiftBefore(t: bv64)
    ensures XorShift(UnXorShift(t)) == t
  {
    calc {
      XorShift(UnXorShift(t));
      XorShift(t ^ (t >> 18) ^ (t >> 36) ^ (t >> 54));
      { XorShiftUnshifted(t); }
      t;
    }
  }

  lemma XorShiftUnshifted(t: bv64)
    ensures XorShift(t ^ (t >> 18) ^ (t >> 36) ^ (t >> 54)) == t
  {
  }

  /** The bits of the xor-shifted state that a draw leaves out, five on top and
      27 below, as one word. */
  function Hidden(s: bv64): bv32 {
    LeftOut(XorShift(s))
  }

  function LeftOut(t: bv64): bv32 {
    (((t >> 59) << 27) | (t & 0x7ff_ffff)) as bv32
  }

  function Top(h: bv32): (r: bv6)
    ensures r < 32
  {
    (h >> 27) as bv6
  }

  function Assemble(xs: bv32, h: bv32): bv64 {
    ((h >> 27) as bv64 << 59) | (xs as bv64 << 27) | (h & 0x7ff_ffff) as bv64
  }

  /** The state with hidden bits h that gives output w. */
  function Preimage(w: bv32, h: bv32): bv64 {
    UnXorShift(Assemble(RotateLeft(w, Top(h)), h))
  }

  lemma AssembleParts(xs: bv32, h: bv32)
    ensures Rotation(Assemble(xs, h)) == Top(h)
    ensures Middle(Assemble(xs, h)) == xs
    ensures LeftOut(Assemble(xs, h)) == h
  {
  }

  lemma AssembleWhole(t: bv64)
    ensures Assemble(Middle(t), LeftOut(t)) == t
    ensures Top(LeftOut(t)) == Rotation(t)
  {
  }

  lemma RotationSurvives(s: bv64)
    ensures Rotation(XorShift(s)) == Rotation(s)
  {
  }

  lemma PreimageGives(w: bv32, h: bv32)
    ensures OutputBits(Preimage(w, h)) == w
    ensures Hidden(Preimage(w, h)) == h
  {
    hide UnXorShift, XorShift, Assemble, Rotation, Top, Middle, LeftOut, RotateLeft, RotateRight;
    var xs := RotateLeft(w, Top(h));
    UnXorShiftBefore(Assemble(xs, h));
    AssembleParts(xs, h);
    RotationSurvives(Preimage(w, h));
    RotationsInverse(w, Top(h));
  }

  lemma PreimageOfOutput(s: bv64)
    ensures Preimage(OutputBits(s), Hidden(s)) == s
  {
    hide UnXorShift, XorShift, Assemble, Rotation, Top, Middle, LeftOut, RotateLeft, RotateRight;
    RotationSurvives(s);
    AssembleWhole(XorShift(s));
    RotationsInverse(XorShifted(s), Rotation(s));
    UnXorShiftAfter(s);
  }

  // ----- uniformity over the period -----

  /** The states whose draw returns w. */
  ghost function StatesGiving(w: u32): set<nat> {
    set s: nat | s in Below(TWO64) && Output(s) == w
  }

  ghost function PreimageIndex(w: u32): nat -> nat {
    (i: nat) => if i < TWO32 then Preimage(Bits32(w), Bits32(i)) as nat else 0
  }

  lemma PreimageIndexBits(w: u32, i: u32)
    ensures PreimageIndex(w)(i) < TWO64
    ensures Bits64(PreimageIndex(w)(i)) == Preimage(Bits32(w), Bits32(i))
  {
    hide Preimage, Bits32, Bits64;
    Bits64Inverse(Preimage(Bits32(w), Bits32(i)));
  }

  lemma PreimageIndexIn(w: u32, i: u32)
    ensures PreimageIndex(w)(i) in StatesGiving(w)
    ensures Hidden(Bits64(PreimageIndex(w)(i))) as nat == i
  {
    var n := PreimageIndex(w)(i);
    hide PreimageIndex, Preimage, OutputBits, Hidden, Bits32, Bits64;
    PreimageIndexBits(w, i);
    PreimageGives(Bits32(w), Bits32(i));
    Bits32Value(i);
    assert Output(n) == w by {
      Bits32Value(w);
    }
  }

  lemma PreimageIndexHits(w: u32, s: nat)
    requires s in StatesGiving(w)
    ensures exists i :: i in Below(TWO32) && PreimageIndex(w)(i) == s
  {
    hide Preimage, OutputBits, Hidden, Bits32, Bits64;
    var i := Hidden(Bits64(s)) as nat;
    Bits32Inverse(Hidden(Bits64(s)));
    Bits32Inverse(OutputBits(Bits64(s)));
    PreimageOfOutput(Bits64(s));
    Bits64Value(s);
    assert PreimageIndex(w)(i) == s;
  }

  /** Every 32-bit value is the output of exactly 2^32 states. */
  lemma OutputIsEven(w: u32)
    ensures |StatesGiving(w)| == TWO32
  {
    var f := PreimageIndex(w);
    forall i | i in Below(TWO32) ensures f(i) in StatesGiving(w) {
      PreimageIndexIn(w, i);
    }
    forall i, j | i in Below(TWO32) && j in Below(TWO32) && f(i) == f(j) ensures i == j {
      PreimageIndexIn(w, i);
      PreimageIndexIn(w, j);
    }
    forall s | s in StatesGiving(w) ensures exists i :: i in Below(TWO32) && f(i) == s {
      PreimageIndexHits(w, s);
    }
    ImageSize(Below(TWO32), f, StatesGiving(w));
    BelowSize(TWO32);
  }

  /** The draws of one period, by number of moves from the given state, that
      return a word in ws. */
  ghost function DrawsIn(state: u64, inc: u64, ws: set<nat>): set<nat> {
    set i: nat | i in Below(TWO64) && Output(Walk(state, inc, i)) in ws
  }

  /** Over a full period every 32-bit word is drawn exactly 2^32 times. */
  lemma UniformOverPeriod(state: u64, inc: u64, w: u32)
    requires inc % 2 == 1
    ensures |DrawsIn(state, inc, {w})| == TWO32
  {
    hide Below, Walk, Output, Injective;
    var f, draws := Path(state, inc), DrawsIn(state, inc, {w});
    PathInjective(state, inc);
    assert Injective(draws, f) by { InjectiveWithin(Below(TWO64), draws, f); }
    forall s | s in StatesGiving(w) ensures exists i :: i in draws && f(i) == s {
      var i := FullPeriod(state, inc, s);
      assert i in draws && f(i) == s;
    }
    ImageSize(draws, f, StatesGiving(w));
    OutputIsEven(w);
  }

  lemma {:induction false} UniformOverPeriodIn(state: u64, inc: u64, ws: set<nat>)
    requires inc % 2 == 1
    requires ws <= Below(TWO32)
    ensures |DrawsIn(state, inc, ws)| == |ws| * TWO32
    decreases |ws|
  {
    hide Below, Walk, Output;
    if ws == {} {
      assert DrawsIn(state, inc, ws) == {};
    } else {
      var w :| w in ws;
      UniformOverPeriod(state, inc, w);
      UniformOverPeriodIn(state, inc, ws - {w});
      assert DrawsIn(state, inc, ws) == DrawsIn(state, inc, {w}) + DrawsIn(state, inc, ws - {w});
      assert DrawsIn(state, inc, {w}) !! DrawsIn(state, inc, ws - {w});
    }
  }

  // ----- drawing below a bound -----

  type bound32 = n: nat | 0 < n < TWO32 witness 1

  /** -bound % bound in unsigned 32-bit arithmetic. */
  function Threshold(bound: bound32): u32 {
    (TWO32 - bound) % bound
  }

  lemma ThresholdIsRemainder(bound: bound32)
    ensures Threshold(bound) == TWO32 % bound
  {
    AddModulus(TWO32 - bound, bound);
  }

  /** The accepted words that come out as r. */
  ghost function AcceptedAs(bound: bound32, r: nat): set<nat> {
    set x: nat | x in Below(TWO32) && Threshold(bound) <= x && x % bound == r
  }

  ghost function NthAccepted(bound: bound32, r: nat): nat -> nat {
    (k: nat) => if r < Threshold(bound) then bound * (k + 1) + r else bound * k + r
  }

  lemma NthAcceptedIn(bound: bound32, r: nat, k: nat)
    requires r < bound && k < TWO32 / bound
    ensures NthAccepted(bound, r)(k) in AcceptedAs(bound, r)
  {
    hide Below, Threshold, AcceptedAs;
    ThresholdIsRemainder(bound);
    UpTo(bound, TWO32 / bound, Threshold(bound), k, r);
    Accepts(bound, r, NthAccepted(bound, r)(k));
  }

  lemma Accepts(bound: bound32, r: nat, x: nat)
    requires Threshold(bound) <= x < TWO32 && x % bound == r
    ensures x in AcceptedAs(bound, r)
  {
    hide Threshold;
  }

  /** The k-th number from t on that leaves r over b is among the first b * q. */
  lemma UpTo(b: nat, q: nat, t: nat, k: nat, r: nat)
    requires r < b && k < q
    ensures var x := if r < t then b * (k + 1) + r else b * k + r;
      (t < b ==> t <= x) && x < b * q + t && x % b == r
  {
    NextMultiple(b, k, q);
    var n := if r < t then k + 1 else k;
    UniqueRemainder(b * n + r, b, n, r);
  }

  lemma Between(b: nat, q: nat, t: nat, n: nat, r: nat)
    requires t < b && r < b && t <= b * n + r < b * q + t
    ensures if r < t then 1 <= n <= q else n < q
  {
    if n > q || (n == q && r >= t) {
      if n > q {
        NextMultiple(b, q, n);
      }
    }
    if n == 0 {
      assert b * n == 0;
    }
  }

  lemma NthAcceptedInjective(bound: bound32, r: nat, j: nat, k: nat)
    requires NthAccepted(bound, r)(j) == NthAccepted(bound, r)(k)
    ensures j == k
  {
    if j < k {
      NextMultiple(bound, j, k);
      NextMultiple(bound, j + 1, k + 1);
    } else if k < j {
      NextMultiple(bound, k, j);
      NextMultiple(bound, k + 1, j + 1);
    }
  }

  lemma NthAcceptedHits(bound: bound32, r: nat, x: nat)
    requires r < bound && x in AcceptedAs(bound, r)
    ensures exists k :: k in Below(TWO32 / bound) && NthAccepted(bound, r)(k) == x
  {
    hide Below, Threshold;
    ThresholdIsRemainder(bound);
    var q, n := TWO32 / bound, x / bound;
    Between(bound, q, Threshold(bound), n, r);
    var k := if r < Threshold(bound) then n - 1 else n;
    assert k in Below(q) && NthAccepted(bound, r)(k) == x;
  }

  /** Each value below the bound comes from exactly floor(2^32 / bound)
      accepted words: the rejection removes the bias. */
  lemma AcceptedEvenly(bound: bound32, r: nat)
    requires r < bound
    ensures |AcceptedAs(bound, r)| == TWO32 / bound
  {
    var f := NthAccepted(bound, r);
    forall k | k in Below(TWO32 / bound) ensures f(k) in AcceptedAs(bound, r) {
      NthAcceptedIn(bound, r, k);
    }
    forall j, k | j in Below(TWO32 / bound) && k in Below(TWO32 / bound) && f(j) == f(k) ensures j == k {
      NthAcceptedInjective(bound, r, j, k);
    }
    forall x | x in AcceptedAs(bound, r) ensures exists k :: k in Below(TWO32 / bound) && f(k) == x {
      NthAcceptedHits(bound, r, x);
    }
    ImageSize(Below(TWO32 / bound), f, AcceptedAs(bound, r));
    BelowSize(TWO32 / bound);
  }

  /** Over a full period of draws, every value below the bound is handed out the
      same number of times. */
  lemma BoundedDrawUnbiased(state: u64, inc: u64, bound: bound32, r: nat)
    requires inc % 2 == 1 && r < bound
    ensures |DrawsIn(state, inc, AcceptedAs(bound, r))| == (TWO32 / bound) * TWO32
  {
    AcceptedEvenly(bound, r);
    UniformOverPeriodIn(state, inc, AcceptedAs(bound, r));
  }

  // ----- why the rejection loop ends -----

  /** A state whose draw is the largest word, accepted for every bound. */
  const JACKPOT: nat := 0x07ff_fe00_0000_0000

  lemma JackpotAccepted()
    ensures Output(JACKPOT) == 0xffff_ffff
  {
    JackpotValue();
    JackpotBits();
    hide Bits64, OutputBits;
    Bits64Unique(JACKPOT, JACKPOT_BITS);
  }

  const JACKPOT_BITS: bv64 := 0x07ff_fe00_0000_0000

  lemma JackpotValue()
    ensures JACKPOT_BITS as nat == JACKPOT
  {
  }

  lemma JackpotBits()
    ensures OutputBits(JACKPOT_BITS) == 0xffff_ffff
  {
  }

  lemma JackpotReached(state: u64, inc: u64)
    requires inc % 2 == 1
    ensures exists n: nat :: n < TWO64 && Walk(state, inc, n) == JACKPOT
  {
    var n := FullPeriod(state, inc, JACKPOT);
  }

  /** How many moves away the jackpot is. */
  ghost function MovesLeft(state: u64, inc: u64): (n: nat)
    requires inc % 2 == 1
    ensures n < TWO64 && Walk(state, inc, n) == JACKPOT
  {
    JackpotReached(state, inc);
    var n: nat :| n < TWO64 && Walk(state, inc, n) == JACKPOT;
    n
  }

  lemma MovesLeftDecrease(state: u64, inc: u64)
    requires inc % 2 == 1 && state != JACKPOT
    ensures MovesLeft(Step(state, inc), inc) == MovesLeft(state, inc) - 1
  {
    var n, m := MovesLeft(state, inc), MovesLeft(Step(state, inc), inc);
    assert n > 0;
    WalkOnce(state, inc);
    hide Walk, Step;
    WalkAdd(state, inc, 1, n - 1);
    if m < n - 1 {
      Distinct(Step(state, inc), inc, m, n - 1);
    } else if n - 1 < m {
      Distinct(Step(state, inc), inc, n - 1, m);
    }
  }

  // ----- the generator -----

  /** The word that the n-th draw from here returns. */
  function Drawn(state: u64, inc: u64, n: nat): u32 {
    Output(Walk(state, inc, n))
  }

  /** The n-th draw from here is the first whose word is not below the threshold. */
  ghost predicate FirstAccepted(state: u64, inc: u64, bound: bound32, n: nat) {
    && Drawn(state, inc, n) >= Threshold(bound)
    && forall i: nat :: i < n ==> Drawn(state, inc, i) < Threshold(bound)
  }

  class Generator {
    var state: u64
    var inc: u64

    ghost predicate Valid()
      reads this
    {
      inc % 2 == 1
    }

    constructor ()
      ensures Valid() && state == 0x853c49e6748fea9b && inc == 0xda3e39cb94b95bdb
    {
      state := 0x853c49e6748fea9b;
      inc := 0xda3e39cb94b95bdb;
    }

    method Seed(initstate: u64, initseq: u64)
      modifies this
      ensures Valid()
      ensures inc == SeedIncrement(initseq) && state == SeedState(initstate, initseq)
    {
      hide Output, Step;
      state := 0;
      inc := initseq * 2 % TWO64 + 1;
      var _ := Draw();
      StepZero(inc);
      state := (state + initstate) % TWO64;
      var _ := Draw();
    }

    method Draw() returns (r: u32)
      modifies this`state
      ensures state == Step(old(state), inc) == (old(state) * 6364136223846793005 + inc) % TWO64
      ensures r == Output(old(state))
    {
      var oldstate := state;
      state := (oldstate * MULTIPLIER + inc) % TWO64;
      r := Output(oldstate);
    }

    /** Draws until a word is accepted; ends for every state, every odd
        increment and every bound. */
    method DrawBelow(bound: bound32) returns (r: nat)
      requires Valid()
      modifies this`state
      ensures r < bound
      ensures exists n: nat :: (
        FirstAccepted(old(state), inc, bound, n)
        && state == Walk(old(state), inc, n + 1)
        && r == Drawn(old(state), inc, n) % bound)
    {
      hide Output, Step;
      var threshold := Threshold(bound);
      ghost var n: nat := 0;
      while true
        invariant state == Walk(old(state), inc, n)
        invariant forall i: nat :: i < n ==> Drawn(old(state), inc, i) < Threshold(bound)
        decreases MovesLeft(state, inc)
      {
        ghost var before := state;
        var w := Draw();
        if w >= threshold {
          assert FirstAccepted(old(state), inc, bound, n);
          return w % bound;
        }
        JackpotAccepted();
        MovesLeftDecrease(before, inc);
        n := n + 1;
      }
    }
  }

  lemma StepZero(inc: u64)
    ensures Step(0, inc) == inc
  {
  }

  function SeedIncrement(initseq: u64): u64 {
    (2 * initseq + 1) % TWO64
  }

  function SeedState(initstate: u64, initseq: u64): u64 {
    Step((SeedIncrement(initseq) + initstate) % TWO64, SeedIncrement(initseq))
  }

  /** The seeded state, with a sequence's increment in its numbers: two steps from
      zero, the seed being added after the first. */
  lemma SeededWalk(initstate: u64, initseq: u64)
    ensures var inc: u64 := (2 * initseq + 1) % TWO64;
      && SeedIncrement(initseq) == inc && inc % 2 == 1
      && SeedState(initstate, initseq) == Walk((Walk(0, inc, 1) + initstate) % TWO64, inc, 1)
      && SeedState(initstate, initseq) == ((inc + initstate) * 6364136223846793005 + inc) % TWO64
  {
    var inc: u64 := (2 * initseq + 1) % TWO64;
    StepZero(inc);
    WalkOnce(0, inc);
    WalkOnce((inc + initstate) % TWO64, inc);
    StepOfResidue(inc + initstate, inc);
    OddIncrement(initseq);
    hide Walk, Step;
  }

  lemma OddIncrement(initseq: u64)
    ensures (2 * initseq + 1) % TWO64 % 2 == 1
  {
  }

  /** What seeding with 42 and 54 leaves, and what is drawn from there. */
  lemma FirstDraw()
    ensures SeedState(42, 54) == 0x185706b82c2e03f8 && SeedIncrement(54) == 0x6d
    ensures OutputBits(0x185706b82c2e03f8) == 0xa15c02b7
  {
  }

  /** Seeding loses nothing: on one stream, different seeds give different
      states, and two streams are the same exactly when their selectors agree
      in the low 63 bits. */
  lemma SeedsDistinct(a: u64, b: u64, initseq: u64)
    requires SeedState(a, initseq) == SeedState(b, initseq)
    ensures a == b
  {
    hide Step;
    var inc := SeedIncrement(initseq);
    StepInjective((inc + a) % TWO64, (inc + b) % TWO64, inc);
  }

  lemma StepInjective(s: u64, t: u64, inc: u64)
    requires inc % 2 == 1 && Step(s, inc) == Step(t, inc)
    ensures s == t
  {
    var n := FullPeriod(s, inc, t);
    WalkOnce(s, inc);
    WalkOnce(t, inc);
    hide Walk, Step;
    WalkAdd(s, inc, 1, n);
    WalkAdd(s, inc, n, 1);
    Returns(Step(s, inc), inc, n);
  }

  lemma WalkOnce(s: u64, inc: u64)
    ensures Walk(s, inc, 1) == Step(s, inc)
  {
    assert Walk(s, inc, 0) == s;
  }

  lemma StreamsDistinct(p: u64, q: u64)
    ensures SeedIncrement(p) == SeedIncrement(q) <==> p % 0x8000_0000_0000_0000 == q % 0x8000_0000_0000_0000
  {
  }
}
