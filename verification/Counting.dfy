/** Counting arguments over finite sets of numbers. */
module Counting {

  /** The numbers below n. */
  ghost function Below(n: nat): (s: set<nat>)
    ensures forall i: nat :: i in s <==> i < n
  {
    if n == 0 then {} else Below(n - 1) + {n - 1}
  }

  ghost predicate Injective<T(!new)>(a: set<nat>, f: nat -> T) {
    forall i, j :: i in a && j in a && f(i) == f(j) ==> i == j
  }

  lemma InjectiveWithin<T(!new)>(a: set<nat>, b: set<nat>, f: nat -> T)
    requires Injective(a, f) && b <= a
    ensures Injective(b, f)
  {
  }

  lemma {:induction false} BelowSize(n: nat)
    ensures |Below(n)| == n
  {
    if n > 0 {
      BelowSize(n - 1);
    }
  }

  /** An injective map keeps the size of a set. */
  lemma {:induction false} ImageSize<T(!new)>(a: set<nat>, f: nat -> T, b: set<T>)
    requires Injective(a, f)
    requires forall i :: i in a ==> f(i) in b
    requires forall y :: y in b ==> exists i :: i in a && f(i) == y
    ensures |a| == |b|
    decreases |a|
  {
    if a == {} {
      assert b == {};
    } else {
      var i :| i in a;
      var a', b' := a - {i}, b - {f(i)};
      forall y | y in b' ensures exists k :: k in a' && f(k) == y {
        var k :| k in a && f(k) == y;
        assert k in a';
      }
      ImageSize(a', f, b');
    }
  }

  lemma {:induction false} SubsetSize(a: set<nat>, b: set<nat>)
    requires a <= b
    ensures |a| <= |b|
    ensures |a| == |b| ==> a == b
    decreases |b|
  {
    if a != {} {
      var i :| i in a;
      SubsetSize(a - {i}, b - {i});
      if |a| == |b| {
        assert a == a - {i} + {i} && b == b - {i} + {i};
      }
    }
  }

  ghost function Image(a: set<nat>, f: nat -> nat): (b: set<nat>)
    ensures forall y :: y in b <==> exists i :: i in a && f(i) == y
  {
    set i | i in a :: f(i)
  }

  /** Pigeonhole: an injective map from the numbers below n into the numbers
      below n reaches every one of them. */
  lemma InjectiveIsOnto(n: nat, f: nat -> nat)
    requires Injective(Below(n), f)
    requires Image(Below(n), f) <= Below(n)
    ensures Image(Below(n), f) == Below(n)
  {
    ImageSize(Below(n), f, Image(Below(n), f));
    SubsetSize(Image(Below(n), f), Below(n));
  }

  /** One of the arguments that an onto map takes to y. */
  lemma Reached(n: nat, f: nat -> nat, y: nat) returns (i: nat)
    requires Image(Below(n), f) == Below(n) && y < n
    ensures i < n && f(i) == y
  {
    hide Image, Below;
    assert y in Image(Below(n), f);
    i :| i in Below(n) && f(i) == y;
  }
}
