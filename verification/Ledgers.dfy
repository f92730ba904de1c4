/** The balances of all users, and what trading does to them. */
module Ledgers {
  import opened Amounts
  import opened Arith
  import opened Bcd

  /** A balance: so much of the instrument and so much of what it is paid in. */
  datatype Exa = Exa(base: Amount, term: Amount)

  const NOTHING := Exa(ZERO, ZERO)

  function Plus(a: Exa, b: Exa): Exa {
    Exa(Add(a.base, b.base), Add(a.term, b.term))
  }

  function Contra(a: Exa): Exa {
    Exa(Negated(a.base), Negated(a.term))
  }

  // ----- the ledger -----

  /** One row a user, one balance an instrument; user ids count from 1. */
  type Ledger = seq<seq<Exa>>

  predicate HasWidth(l: Ledger, width: nat) {
    forall u :: 0 <= u < |l| ==> |l[u]| == width
  }

  predicate Lists(l: Ledger, i: nat) {
    forall u :: 0 <= u < |l| ==> i < |l[u]|
  }

  function NewRow(width: nat): (row: seq<Exa>)
    ensures |row| == width && forall i :: 0 <= i < width ==> row[i] == NOTHING
  {
    seq(width, _ => NOTHING)
  }

  /** User id 0 is nobody. */
  function Credit(l: Ledger, u: nat, i: nat, a: Exa): (r: Ledger)
    requires u <= |l| && (u > 0 ==> i < |l[u - 1]|)
    ensures |r| == |l| && forall v :: 0 <= v < |l| ==> |r[v]| == |l[v]|
  {
    if u == 0 then l else l[u - 1 := l[u - 1][i := Plus(l[u - 1][i], a)]]
  }

  function BalanceOf(l: Ledger, u: nat, i: nat): Exa
    requires u <= |l| && (u > 0 ==> i < |l[u - 1]|)
  {
    if u == 0 then NOTHING else l[u - 1][i]
  }

  /** A trade: the maker gains, the taker loses as much. */
  datatype Trade = Trade(maker: nat, taker: nat, gain: Exa)

  function Settle(l: Ledger, i: nat, t: Trade): (r: Ledger)
    requires t.maker <= |l| && t.taker <= |l| && Lists(l, i)
    ensures |r| == |l| && forall v :: 0 <= v < |l| ==> |r[v]| == |l[v]|
  {
    Credit(Credit(l, t.maker, i, t.gain), t.taker, i, Contra(t.gain))
  }

  function SettleAll(l: Ledger, i: nat, ts: seq<Trade>): (r: Ledger)
    requires forall k :: 0 <= k < |ts| ==> ts[k].maker <= |l| && ts[k].taker <= |l|
    requires Lists(l, i)
    ensures |r| == |l| && forall v :: 0 <= v < |l| ==> |r[v]| == |l[v]|
    decreases |ts|
  {
    if ts == [] then l else Settle(SettleAll(l, i, ts[..|ts| - 1]), i, ts[|ts| - 1])
  }

  /** What the two sides of a trade have after it, the maker's as it is booked first. */
  function Report(l: Ledger, i: nat, t: Trade): (Exa, Exa)
    requires t.maker <= |l| && t.taker <= |l| && Lists(l, i)
  {
    (BalanceOf(Credit(l, t.maker, i, t.gain), t.maker, i), BalanceOf(Settle(l, i, t), t.taker, i))
  }

  function Reports(l: Ledger, i: nat, ts: seq<Trade>): seq<(Exa, Exa)>
    requires forall k :: 0 <= k < |ts| ==> ts[k].maker <= |l| && ts[k].taker <= |l|
    requires Lists(l, i)
    decreases |ts|
  {
    if ts == [] then [] else
      var before := ts[..|ts| - 1];
      Reports(l, i, before) + [Report(SettleAll(l, i, before), i, ts[|ts| - 1])]
  }

  lemma ReportIs(l: Ledger, i: nat, t: Trade)
    requires t.maker <= |l| && t.taker <= |l| && Lists(l, i)
    ensures var r, now := Report(l, i, t), Settle(l, i, t);
      && r.0 == (if t.maker == 0 then NOTHING else Plus(l[t.maker - 1][i], t.gain))
      && (t.taker == 0 ==> r.1 == NOTHING)
      && (0 < t.taker != t.maker ==> r.1 == Plus(l[t.taker - 1][i], Contra(t.gain)))
      && (0 < t.taker == t.maker ==> r.1 == Plus(r.0, Contra(t.gain)))
      && (0 < t.maker != t.taker ==> r.0 == now[t.maker - 1][i])
      && (t.taker > 0 ==> r.1 == now[t.taker - 1][i])
  {
    hide Plus, Contra;
  }

  /** Each report of a series of trades is about the trade of its place, the maker's
      balance first: what the ledger after that trade says for either side, which is
      the gain put on what the maker had and taken from what the taker had.  Who
      trades with himself is told what he has after each half, and nobody nothing. */
  lemma ReportsAre(l: Ledger, i: nat, ts: seq<Trade>, k: nat)
    requires forall n :: 0 <= n < |ts| ==> ts[n].maker <= |l| && ts[n].taker <= |l|
    requires Lists(l, i) && k < |ts|
    ensures |Reports(l, i, ts)| == |ts|
    ensures var (m, c) := Reports(l, i, ts)[k];
      var was, now, t := SettleAll(l, i, ts[..k]), SettleAll(l, i, ts[..k + 1]), ts[k];
      && m == (if t.maker == 0 then NOTHING else Plus(was[t.maker - 1][i], t.gain))
      && (t.taker == 0 ==> c == NOTHING)
      && (0 < t.taker != t.maker ==> c == Plus(was[t.taker - 1][i], Contra(t.gain)))
      && (0 < t.taker == t.maker ==> c == Plus(m, Contra(t.gain)))
      && (0 < t.maker != t.taker ==> m == now[t.maker - 1][i])
      && (t.taker > 0 ==> c == now[t.taker - 1][i])
  {
    ReportsLength(l, i, ts);
    hide Settle, SettleAll, Report, Reports, Plus, Contra;
    ReportAt(l, i, ts, k);
    ReportIs(SettleAll(l, i, ts[..k]), i, ts[k]);
  }

  lemma {:induction false} ReportAt(l: Ledger, i: nat, ts: seq<Trade>, k: nat)
    requires forall n :: 0 <= n < |ts| ==> ts[n].maker <= |l| && ts[n].taker <= |l|
    requires Lists(l, i) && k < |ts| == |Reports(l, i, ts)|
    ensures Lists(SettleAll(l, i, ts[..k]), i)
    ensures Reports(l, i, ts)[k] == Report(SettleAll(l, i, ts[..k]), i, ts[k])
    ensures SettleAll(l, i, ts[..k + 1]) == Settle(SettleAll(l, i, ts[..k]), i, ts[k])
    decreases |ts|
  {
    var before := ts[..|ts| - 1];
    LastReport(l, i, ts);
    SettledLists(l, i, ts[..k]);
    hide Lists, Settle, SettleAll, Report, Reports;
    ReportsLength(l, i, before);
    if k == |before| {
      assert ts[..k + 1] == ts && ts[..k] == before;
    } else {
      assert before[..k] == ts[..k] && before[..k + 1] == ts[..k + 1];
      ReportAt(l, i, before, k);
    }
  }

  lemma LastReport(l: Ledger, i: nat, ts: seq<Trade>)
    requires forall n :: 0 <= n < |ts| ==> ts[n].maker <= |l| && ts[n].taker <= |l|
    requires Lists(l, i) && ts != []
    ensures var before, t := ts[..|ts| - 1], ts[|ts| - 1];
      && Lists(SettleAll(l, i, before), i)
      && SettleAll(l, i, ts) == Settle(SettleAll(l, i, before), i, t)
      && Reports(l, i, ts) == Reports(l, i, before) + [Report(SettleAll(l, i, before), i, t)]
  {
    hide Settle, Report;
  }

  lemma SettledLists(l: Ledger, i: nat, ts: seq<Trade>)
    requires forall n :: 0 <= n < |ts| ==> ts[n].maker <= |l| && ts[n].taker <= |l|
    requires Lists(l, i)
    ensures Lists(SettleAll(l, i, ts), i)
  {
  }

  lemma {:induction false} ReportsLength(l: Ledger, i: nat, ts: seq<Trade>)
    requires forall n :: 0 <= n < |ts| ==> ts[n].maker <= |l| && ts[n].taker <= |l|
    requires Lists(l, i)
    ensures |Reports(l, i, ts)| == |ts|
    decreases |ts|
  {
    hide Report, Settle;
    if ts != [] {
      ReportsLength(l, i, ts[..|ts| - 1]);
    }
  }

  /** Nobody who is not part of a trade has a balance changed by it. */
  lemma OthersUntouched(l: Ledger, i: nat, t: Trade, u: nat, j: nat)
    requires t.maker <= |l| && t.taker <= |l| && Lists(l, i) && Lists(l, j)
    requires 0 < u <= |l| && (i != j || (u != t.maker && u != t.taker))
    ensures BalanceOf(Settle(l, i, t), u, j) == BalanceOf(l, u, j)
  {
  }

  // ----- one column of amounts -----

  datatype Part = Base | Term

  function Of(a: Exa, p: Part): Amount {
    if p.Base? then a.base else a.term
  }

  /** All users' amounts of one instrument, or of what it is paid in. */
  type Column = seq<Amount>

  function ColumnOf(l: Ledger, j: nat, p: Part): (c: Column)
    requires Lists(l, j)
    ensures |c| == |l| && forall u :: 0 <= u < |l| ==> c[u] == Of(l[u][j], p)
  {
    seq(|l|, u requires 0 <= u < |l| && Lists(l, j) => Of(l[u][j], p))
  }

  function Booked(c: Column, u: nat, d: Amount): (r: Column)
    requires u <= |c|
    ensures |r| == |c|
  {
    if u == 0 then c else c[u - 1 := Add(c[u - 1], d)]
  }

  function Traded(c: Column, maker: nat, taker: nat, g: Amount): (r: Column)
    requires maker <= |c| && taker <= |c|
    ensures |r| == |c|
  {
    Booked(Booked(c, maker, g), taker, Negated(g))
  }

  lemma CreditColumn(l: Ledger, u: nat, i: nat, a: Exa, j: nat, p: Part)
    requires u <= |l| && Lists(l, i) && Lists(l, j)
    ensures Lists(Credit(l, u, i, a), j)
    ensures ColumnOf(Credit(l, u, i, a), j, p)
      == if i == j then Booked(ColumnOf(l, j, p), u, Of(a, p)) else ColumnOf(l, j, p)
  {
    hide Add;
  }

  /** A trade changes the columns of its own instrument, and those as the two
      bookings do. */
  lemma SettleColumn(l: Ledger, i: nat, t: Trade, j: nat, p: Part)
    requires t.maker <= |l| && t.taker <= |l| && Lists(l, i) && Lists(l, j)
    ensures Lists(Settle(l, i, t), j)
    ensures ColumnOf(Settle(l, i, t), j, p)
      == if i == j then Traded(ColumnOf(l, j, p), t.maker, t.taker, Of(t.gain, p)) else ColumnOf(l, j, p)
  {
    var mid := Credit(l, t.maker, i, t.gain);
    CreditColumn(l, t.maker, i, t.gain, j, p);
    CreditColumn(mid, t.taker, i, Contra(t.gain), j, p);
    hide ColumnOf, Credit, Booked, Negated;
  }

  // ----- adding a column up -----

  predicate AllNumbers(c: Column) {
    forall u :: 0 <= u < |c| ==> c[u].Num?
  }

  function Value(a: Amount): int {
    if a.Num? then a.n else 0
  }

  function Sum(c: Column): int {
    if c == [] then 0 else Sum(c[..|c| - 1]) + Value(c[|c| - 1])
  }

  /** The exact total, if there is one. */
  function Total(c: Column): Amount {
    if AllNumbers(c) then Num(Sum(c)) else NaN
  }

  /** What the venue's check adds up, rounding as it goes. */
  function CheckSum(c: Column): Amount {
    if c == [] then ZERO else Add(CheckSum(c[..|c| - 1]), c[|c| - 1])
  }

  lemma {:induction false} SumUpdate(c: Column, i: nat, a: Amount)
    requires i < |c|
    ensures Sum(c[i := a]) == Sum(c) - Value(c[i]) + Value(a)
    decreases |c|
  {
    var r, n := c[i := a], |c| - 1;
    if i == n {
      assert r[..n] == c[..n];
    } else {
      assert r[..n] == c[..n][i := a];
      SumUpdate(c[..n], i, a);
    }
  }

  /** A booking gives a number. */
  predicate Books(c: Column, u: nat, d: Amount)
    requires u <= |c|
  {
    u == 0 || Add(c[u - 1], d).Num?
  }

  /** By how much a booking changes the balance it is for. */
  function Moved(c: Column, u: nat, d: Amount): int
    requires u <= |c|
  {
    if u == 0 then 0 else Value(Add(c[u - 1], d)) - Value(c[u - 1])
  }

  lemma BookedTotal(c: Column, u: nat, d: Amount)
    requires u <= |c| && AllNumbers(c)
    ensures AllNumbers(Booked(c, u, d)) <==> Books(c, u, d)
    ensures Sum(Booked(c, u, d)) == Sum(c) + Moved(c, u, d)
  {
    hide Add, Sum;
    if u > 0 {
      SumUpdate(c, u - 1, Add(c[u - 1], d));
      assert Booked(c, u, d)[u - 1] == Add(c[u - 1], d);
    }
  }

  /** What is no number stays none. */
  lemma BookedStays(c: Column, u: nat, d: Amount)
    requires u <= |c| && !AllNumbers(c)
    ensures !AllNumbers(Booked(c, u, d))
  {
    var v :| 0 <= v < |c| && !c[v].Num?;
    assert !Booked(c, u, d)[v].Num?;
  }

  /** A trade keeps the total if and only if both bookings give numbers and what one
      balance moves up the other moves down. */
  lemma TradedTotal(c: Column, maker: nat, taker: nat, g: Amount)
    requires maker <= |c| && taker <= |c| && Total(c).Num?
    ensures var mid := Booked(c, maker, g);
      Total(Traded(c, maker, taker, g)) == Total(c) <==>
      (Books(c, maker, g) && Books(mid, taker, Negated(g))
       && Moved(c, maker, g) + Moved(mid, taker, Negated(g)) == 0)
  {
    var mid := Booked(c, maker, g);
    BookedTotal(c, maker, g);
    hide Booked, Moved, Books, Sum;
    if AllNumbers(mid) {
      BookedTotal(mid, taker, Negated(g));
    } else {
      BookedStays(mid, taker, Negated(g));
    }
  }

  /** Both bookings of a trade of two users give numbers, and their two rounding
      errors cancel. */
  predicate RoundingsCancel(c: Column, maker: nat, taker: nat, g: Amount)
    requires 0 < maker <= |c| && 0 < taker <= |c| && AllNumbers(c) && g.Num?
  {
    && Add(c[maker - 1], g).Num?
    && var mid := Booked(c, maker, g);
    && Add(mid[taker - 1], Negated(g)).Num?
    && Error(c[maker - 1], g) + Error(mid[taker - 1], Negated(g)) == 0
  }

  lemma TwoUsersTotal(c: Column, maker: nat, taker: nat, g: Amount)
    requires 0 < maker <= |c| && 0 < taker <= |c| && AllNumbers(c) && g.Num?
    ensures Total(Traded(c, maker, taker, g)) == Total(c) <==> RoundingsCancel(c, maker, taker, g)
  {
    TradedTotal(c, maker, taker, g);
    hide Add, Total, Traded;
  }

  /** A trade of two users keeps an instrument's total if and only if it is in
      another one or its two rounding errors cancel. */
  lemma SettleTotal(l: Ledger, i: nat, t: Trade, j: nat, p: Part)
    requires 0 < t.maker <= |l| && 0 < t.taker <= |l| && Lists(l, i) && Lists(l, j)
    requires AllNumbers(ColumnOf(l, j, p)) && Of(t.gain, p).Num?
    ensures Lists(Settle(l, i, t), j)
    ensures Total(ColumnOf(Settle(l, i, t), j, p)) == Total(ColumnOf(l, j, p)) <==>
      (i != j || RoundingsCancel(ColumnOf(l, j, p), t.maker, t.taker, Of(t.gain, p)))
  {
    SettleColumn(l, i, t, j, p);
    hide Settle, Total, RoundingsCancel, Traded, ColumnOf;
    TwoUsersTotal(ColumnOf(l, j, p), t.maker, t.taker, Of(t.gain, p));
  }

  lemma AddUserColumn(l: Ledger, width: nat, j: nat, p: Part)
    requires HasWidth(l, width) && j < width
    ensures ColumnOf(l + [NewRow(width)], j, p) == ColumnOf(l, j, p) + [ZERO]
  {
  }

  /** A new user changes no total. */
  lemma AddUserTotal(c: Column)
    ensures Total(c + [ZERO]) == Total(c)
  {
    var r := c + [ZERO];
    assert r[..|c|] == c;
    assert forall u :: 0 <= u < |c| ==> r[u] == c[u];
  }

  // ----- where nothing is rounded -----

  /** The check adds up the exact total if each sum on its way is one a decimal can
      be. */
  lemma {:induction false} CheckExact(c: Column)
    requires AllNumbers(c) && forall n :: 0 <= n <= |c| ==> Holds(Sum(c[..n]))
    ensures CheckSum(c) == Total(c)
    decreases |c|
  {
    hide Add, Holds;
    if c != [] {
      var before := c[..|c| - 1];
      forall n | 0 <= n <= |before| ensures Holds(Sum(before[..n])) {
        assert before[..n] == c[..n];
      }
      CheckExact(before);
      assert c[..|c|] == c;
      AddExact(Sum(before), c[|c| - 1].n);
    }
  }

  /** Whole steps of 10^q, no balance and no sum of the first users past v. */
  ghost predicate Tidy(c: Column, q: nat, v: nat) {
    && AllNumbers(c)
    && (forall u :: 0 <= u < |c| ==> InSteps(c[u].n, q) && Abs(c[u].n) <= v)
    && (forall n :: 0 <= n <= |c| ==> InSteps(Sum(c[..n]), q) && Abs(Sum(c[..n])) <= v)
  }

  /** v stays within sixteen digits of steps. */
  ghost predicate WithinReach(q: nat, v: nat) {
    q <= 767 && v < Pow10(16 + q)
  }

  lemma ReachHolds(n: int, q: nat, v: nat)
    requires InSteps(n, q) && Abs(n) <= v && WithinReach(q, v)
    ensures Holds(n)
  {
    StepsHold(n, q);
  }

  /** In a tidy column the check adds up the exact total. */
  lemma TidyChecks(c: Column, q: nat, v: nat)
    requires Tidy(c, q, v) && WithinReach(q, v)
    ensures CheckSum(c) == Total(c) == Num(Sum(c))
  {
    hide Holds, InSteps, WithinReach, Sum, CheckSum;
    forall n | 0 <= n <= |c| ensures Holds(Sum(c[..n])) {
      ReachHolds(Sum(c[..n]), q, v);
    }
    CheckExact(c);
  }

  /** A booking that is not rounded, seen in the sums of the first users. */
  lemma ExactPrefix(c: Column, u: nat, d: int, n: nat)
    requires 0 < u <= |c| && n <= |c| && c[u - 1].Num? && Add(c[u - 1], Num(d)) == Num(c[u - 1].n + d)
    ensures Sum(Booked(c, u, Num(d))[..n]) == Sum(c[..n]) + if u <= n then d else 0
  {
    var r := Booked(c, u, Num(d));
    hide Add;
    if u <= n {
      assert r[..n] == c[..n][u - 1 := r[u - 1]];
      SumUpdate(c[..n], u - 1, r[u - 1]);
    } else {
      assert r[..n] == c[..n];
    }
  }

  lemma BookingExact(b: int, d: int, q: nat, v: nat)
    requires InSteps(b, q) && InSteps(d, q) && Abs(b + d) <= v && WithinReach(q, v)
    ensures Add(Num(b), Num(d)) == Num(b + d) && InSteps(b + d, q)
  {
    hide Add, Holds, InSteps, WithinReach;
    StepsAdd(b, d, q);
    ReachHolds(b + d, q, v);
    AddExact(b, d);
  }

  /** Neither booking of a trade rounds in a tidy column, as long as the volume
      stays within reach. */
  lemma TradeBooks(c: Column, maker: nat, taker: nat, g: int, q: nat, v: nat)
    requires 0 < maker <= |c| && 0 < taker <= |c| && Tidy(c, q, v) && InSteps(g, q) && WithinReach(q, v + Abs(g))
    ensures Add(c[maker - 1], Num(g)) == Num(c[maker - 1].n + g) && InSteps(c[maker - 1].n + g, q)
    ensures var b := Booked(c, maker, Num(g))[taker - 1];
      && b.Num? && Add(b, Num(-g)) == Num(b.n - g) && InSteps(b.n - g, q)
      && b.n == c[taker - 1].n + if maker == taker then g else 0
  {
    hide Add, InSteps, WithinReach, Sum;
    var x := c[maker - 1].n;
    StepsAdd(x, g, q);
    BookingExact(x, g, q, v + Abs(g));
    var b := Booked(c, maker, Num(g))[taker - 1];
    if maker == taker {
      StepsAdd(x + g, -g, q);
      BookingExact(x + g, -g, q, v + Abs(g));
    } else {
      StepsAdd(c[taker - 1].n, g, q);
      BookingExact(c[taker - 1].n, -g, q, v + Abs(g));
    }
  }

  lemma TradePrefix(c: Column, maker: nat, taker: nat, g: int, q: nat, v: nat, n: nat)
    requires 0 < maker <= |c| && 0 < taker <= |c| && Tidy(c, q, v) && InSteps(g, q) && WithinReach(q, v + Abs(g))
    requires n <= |c|
    ensures var s := Sum(Traded(c, maker, taker, Num(g))[..n]);
      && s == Sum(c[..n]) + (if maker <= n then g else 0) - (if taker <= n then g else 0)
      && InSteps(s, q) && Abs(s) <= v + Abs(g)
  {
    var mid := Booked(c, maker, Num(g));
    TradeBooks(c, maker, taker, g, q, v);
    hide Add, WithinReach, Sum, InSteps, Booked;
    ExactPrefix(c, maker, g, n);
    ExactPrefix(mid, taker, -g, n);
    StepsAdd(Sum(c[..n]), g, q);
    StepsAdd(g, g, q);
    StepsAdd(Sum(c[..n]), -g, q);
  }

  lemma TradeEntry(c: Column, maker: nat, taker: nat, g: int, q: nat, v: nat, u: nat)
    requires 0 < maker <= |c| && 0 < taker <= |c| && Tidy(c, q, v) && InSteps(g, q) && WithinReach(q, v + Abs(g))
    requires u < |c|
    ensures var a := Traded(c, maker, taker, Num(g))[u]; a.Num? && InSteps(a.n, q) && Abs(a.n) <= v + Abs(g)
  {
    TradeBooks(c, maker, taker, g, q, v);
    hide Add, WithinReach, Sum, InSteps;
  }

  /** A trade of two users leaves a tidy column tidy and its total the same. */
  lemma TradeTidy(c: Column, maker: nat, taker: nat, g: int, q: nat, v: nat)
    requires 0 < maker <= |c| && 0 < taker <= |c| && Tidy(c, q, v) && InSteps(g, q) && WithinReach(q, v + Abs(g))
    ensures var r := Traded(c, maker, taker, Num(g)); Tidy(r, q, v + Abs(g)) && Sum(r) == Sum(c)
  {
    hide Traded, WithinReach, Sum, InSteps;
    var r := Traded(c, maker, taker, Num(g));
    forall n | 0 <= n <= |c| ensures InSteps(Sum(r[..n]), q) && Abs(Sum(r[..n])) <= v + Abs(g) {
      TradePrefix(c, maker, taker, g, q, v, n);
    }
    forall u | 0 <= u < |c| ensures r[u].Num? && InSteps(r[u].n, q) && Abs(r[u].n) <= v + Abs(g) {
      TradeEntry(c, maker, taker, g, q, v, u);
    }
    TradePrefix(c, maker, taker, g, q, v, |c|);
    assert r[..|c|] == r && c[..|c|] == c;
  }

  // ----- the venue over a whole run -----

  /** Two orders meet; they are named by the order they were entered in. */
  datatype Fill = Fill(maker: nat, taker: nat, gain: Exa)

  /** Users come and go, enter orders and trade. */
  datatype Event =
    | Connect(sock: int)
    | Disconnect(u: nat)
    | Order(u: nat)
    | Execute(i: nat, fills: seq<Fill>)

  /** The balances, whose each order is, and which users are connected. */
  datatype State = State(ledger: Ledger, orders: seq<nat>, open: set<nat>)

  const START := State([], [], {})

  predicate FillsNamed(fills: seq<Fill>, orders: nat) {
    forall k :: 0 <= k < |fills| ==> fills[k].maker < orders && fills[k].taker < orders
  }

  predicate Tagged(orders: seq<nat>, users: nat) {
    forall k :: 0 <= k < |orders| ==> 0 < orders[k] <= users
  }

  /** Ids are those of users: no order carries another one. */
  predicate Sound(st: State, width: nat) {
    && HasWidth(st.ledger, width)
    && Tagged(st.orders, |st.ledger|)
    && (forall u :: u in st.open ==> 0 < u <= |st.ledger|)
  }

  /** Only a connected user enters an order or disconnects, only entered orders meet. */
  predicate CanHappen(st: State, width: nat, e: Event) {
    match e
    case Connect(_) => true
    case Disconnect(u) => u in st.open
    case Order(u) => u in st.open
    case Execute(i, fills) =>
      i < width && FillsNamed(fills, |st.orders|)
  }

  /** The trades of fills: an order stands for the user whose id it was tagged with. */
  function TradesOf(orders: seq<nat>, fills: seq<Fill>): (ts: seq<Trade>)
    requires FillsNamed(fills, |orders|)
    ensures |ts| == |fills|
    ensures forall k :: 0 <= k < |fills| ==>
      ts[k] == Trade(orders[fills[k].maker], orders[fills[k].taker], fills[k].gain)
    decreases |fills|
  {
    if fills == [] then [] else
      var f, before := fills[|fills| - 1], fills[..|fills| - 1];
      TradesOf(orders, before) + [Trade(orders[f.maker], orders[f.taker], f.gain)]
  }

  function Step(st: State, width: nat, e: Event): (r: State)
    requires Sound(st, width) && CanHappen(st, width, e)
    ensures Sound(r, width)
  {
    match e
    case Connect(_) => State(st.ledger + [NewRow(width)], st.orders, st.open + {|st.ledger| + 1})
    case Disconnect(u) => st.(open := st.open - {u})
    case Order(u) => st.(orders := st.orders + [u])
    case Execute(i, fills) => st.(ledger := SettleAll(st.ledger, i, TradesOf(st.orders, fills)))
  }

  predicate IsRun(st: State, width: nat, es: seq<Event>)
    requires Sound(st, width)
    decreases |es|
  {
    es == [] || (CanHappen(st, width, es[0]) && IsRun(Step(st, width, es[0]), width, es[1..]))
  }

  function Run(st: State, width: nat, es: seq<Event>): (r: State)
    requires Sound(st, width) && IsRun(st, width, es)
    ensures Sound(r, width)
    decreases |es|
  {
    if es == [] then st else Run(Step(st, width, es[0]), width, es[1..])
  }

  /** How much changes hands, whichever way. */
  function FillVolume(fills: seq<Fill>, p: Part): nat {
    if fills == [] then 0
    else FillVolume(fills[..|fills| - 1], p) + Abs(Value(Of(fills[|fills| - 1].gain, p)))
  }

  /** How much of one column changes hands in an event. */
  function EventVolume(e: Event, j: nat, p: Part): nat {
    if e.Execute? && e.i == j then FillVolume(e.fills, p) else 0
  }

  function Volume(es: seq<Event>, j: nat, p: Part): nat {
    if es == [] then 0 else EventVolume(es[0], j, p) + Volume(es[1..], j, p)
  }

  ghost predicate FillsInSteps(fills: seq<Fill>, p: Part, q: nat) {
    forall k :: 0 <= k < |fills| ==> Of(fills[k].gain, p).Num? && InSteps(Of(fills[k].gain, p).n, q)
  }

  /** All amounts of an instrument are whole steps of 10^q. */
  ghost predicate GainsInSteps(es: seq<Event>, j: nat, p: Part, q: nat) {
    forall e :: e in es && e.Execute? && e.i == j ==> FillsInSteps(e.fills, p, q)
  }

  /** One column after fills. */
  function Filled(c: Column, orders: seq<nat>, fills: seq<Fill>, p: Part): (r: Column)
    requires Tagged(orders, |c|) && FillsNamed(fills, |orders|)
    ensures |r| == |c|
    decreases |fills|
  {
    if fills == [] then c else
      var f := fills[|fills| - 1];
      Traded(Filled(c, orders, fills[..|fills| - 1], p), orders[f.maker], orders[f.taker], Of(f.gain, p))
  }

  lemma SettleLast(l: Ledger, i: nat, orders: seq<nat>, fills: seq<Fill>)
    requires Lists(l, i) && Tagged(orders, |l|) && FillsNamed(fills, |orders|) && fills != []
    ensures var f := fills[|fills| - 1];
      SettleAll(l, i, TradesOf(orders, fills)) == Settle(SettleAll(l, i, TradesOf(orders, fills[..|fills| - 1])), i,
        Trade(orders[f.maker], orders[f.taker], f.gain))
  {
    var ts := TradesOf(orders, fills);
    assert ts[..|ts| - 1] == TradesOf(orders, fills[..|fills| - 1]);
    hide Settle;
  }

  lemma FilledStep(mid: Ledger, i: nat, t: Trade, j: nat, p: Part, c: Column)
    requires Lists(mid, i) && Lists(mid, j) && t.maker <= |mid| && t.taker <= |mid| && ColumnOf(mid, j, p) == c
    ensures Lists(Settle(mid, i, t), j)
    ensures ColumnOf(Settle(mid, i, t), j, p) == if i == j then Traded(c, t.maker, t.taker, Of(t.gain, p)) else c
  {
    SettleColumn(mid, i, t, j, p);
  }

  lemma {:induction false} FilledColumn(l: Ledger, i: nat, orders: seq<nat>, fills: seq<Fill>, j: nat, p: Part)
    requires Lists(l, i) && Lists(l, j) && Tagged(orders, |l|) && FillsNamed(fills, |orders|)
    ensures Lists(SettleAll(l, i, TradesOf(orders, fills)), j)
    ensures ColumnOf(SettleAll(l, i, TradesOf(orders, fills)), j, p)
      == if i == j then Filled(ColumnOf(l, j, p), orders, fills, p) else ColumnOf(l, j, p)
    decreases |fills|
  {
    if fills != [] {
      var before, f := fills[..|fills| - 1], fills[|fills| - 1];
      FilledColumn(l, i, orders, before, j, p);
      SettleLast(l, i, orders, fills);
      var mid := SettleAll(l, i, TradesOf(orders, before));
      assert Lists(mid, i);
      hide Settle, SettleAll, TradesOf, ColumnOf, Traded, Lists;
      FilledStep(mid, i, Trade(orders[f.maker], orders[f.taker], f.gain), j, p, ColumnOf(mid, j, p));
    }
  }

  lemma {:induction false} FilledTidy(c: Column, orders: seq<nat>, fills: seq<Fill>, p: Part, q: nat, v: nat)
    requires Tagged(orders, |c|) && FillsNamed(fills, |orders|) && FillsInSteps(fills, p, q)
    requires Tidy(c, q, v) && WithinReach(q, v + FillVolume(fills, p))
    ensures var r := Filled(c, orders, fills, p); Tidy(r, q, v + FillVolume(fills, p)) && Sum(r) == Sum(c)
    decreases |fills|
  {
    hide Tidy, Traded, InSteps, Sum;
    if fills != [] {
      var before, f := fills[..|fills| - 1], fills[|fills| - 1];
      FilledTidy(c, orders, before, p, q, v);
      var mid, g := Filled(c, orders, before, p), Of(f.gain, p);
      assert g == Num(Value(g));
      TradeTidy(mid, orders[f.maker], orders[f.taker], g.n, q, v + FillVolume(before, p));
    }
  }

  lemma NewUserTidy(c: Column, q: nat, v: nat)
    requires Tidy(c, q, v)
    ensures Tidy(c + [ZERO], q, v) && Sum(c + [ZERO]) == Sum(c)
  {
    var r := c + [ZERO];
    hide InSteps;
    StepsAdd(Sum(c[..0]), Sum(c[..0]), q);
    forall n | 0 <= n <= |r| ensures Sum(r[..n]) == Sum(if n <= |c| then c[..n] else c[..|c|]) {
      if n <= |c| {
        assert r[..n] == c[..n];
      } else {
        assert r[..n] == r && r[..|c|] == c && c[..|c|] == c;
      }
    }
    assert r[..|r|] == r && c[..|c|] == c;
  }

  /** One column after an event. */
  function Next(c: Column, orders: seq<nat>, e: Event, j: nat, p: Part): Column
    requires Tagged(orders, |c|) && (e.Execute? ==> FillsNamed(e.fills, |orders|))
  {
    match e
    case Connect(_) => c + [ZERO]
    case Disconnect(_) => c
    case Order(_) => c
    case Execute(i, fills) => if i == j then Filled(c, orders, fills, p) else c
  }

  lemma StepColumn(st: State, width: nat, e: Event, j: nat, p: Part)
    requires Sound(st, width) && CanHappen(st, width, e) && j < width
    ensures ColumnOf(Step(st, width, e).ledger, j, p) == Next(ColumnOf(st.ledger, j, p), st.orders, e, j, p)
  {
    hide ColumnOf, SettleAll, TradesOf, Filled;
    match e {
      case Connect(_) => AddUserColumn(st.ledger, width, j, p);
      case Disconnect(_) =>
      case Order(_) =>
      case Execute(i, fills) => FilledColumn(st.ledger, i, st.orders, fills, j, p);
    }
  }

  /** One event leaves a column tidy, its total the same, within what has changed
      hands so far. */
  lemma NextTidy(c: Column, orders: seq<nat>, e: Event, j: nat, p: Part, q: nat, v: nat)
    requires Tagged(orders, |c|) && (e.Execute? ==> FillsNamed(e.fills, |orders|))
    requires e.Execute? && e.i == j ==> FillsInSteps(e.fills, p, q)
    requires Tidy(c, q, v) && WithinReach(q, v + EventVolume(e, j, p))
    ensures var r := Next(c, orders, e, j, p); Tidy(r, q, v + EventVolume(e, j, p)) && Sum(r) == Sum(c)
  {
    hide Tidy, WithinReach, Sum, FillsInSteps, Filled, FillVolume;
    match e {
      case Connect(_) => NewUserTidy(c, q, v);
      case Disconnect(_) =>
      case Order(_) =>
      case Execute(i, fills) =>
        if i == j {
          FilledTidy(c, orders, fills, p, q, v);
        }
    }
  }

  lemma RunHead(st: State, width: nat, es: seq<Event>, j: nat, p: Part, q: nat)
    requires Sound(st, width) && es != [] && IsRun(st, width, es) && j < width && GainsInSteps(es, j, p, q)
    ensures CanHappen(st, width, es[0]) && IsRun(Step(st, width, es[0]), width, es[1..])
    ensures Run(st, width, es) == Run(Step(st, width, es[0]), width, es[1..])
    ensures GainsInSteps(es[1..], j, p, q)
    ensures es[0].Execute? && es[0].i == j ==> FillsInSteps(es[0].fills, p, q)
    ensures es[0].Execute? ==> FillsNamed(es[0].fills, |st.orders|)
    ensures Volume(es, j, p) == EventVolume(es[0], j, p) + Volume(es[1..], j, p)
    ensures Tagged(st.orders, |st.ledger|) && Lists(st.ledger, j)
  {
    hide FillsInSteps, EventVolume, Step;
    assert es[0] in es && CanHappen(st, width, es[0]);
  }

  lemma RunNothing(st: State, width: nat, es: seq<Event>, j: nat, p: Part)
    requires Sound(st, width) && es == [] && IsRun(st, width, es)
    ensures Run(st, width, es) == st && Volume(es, j, p) == 0
  {
  }

  lemma {:induction false} RunTidy(st: State, width: nat, es: seq<Event>, j: nat, p: Part, q: nat, v: nat)
    requires Sound(st, width) && IsRun(st, width, es) && j < width
    requires GainsInSteps(es, j, p, q) && Tidy(ColumnOf(st.ledger, j, p), q, v) && WithinReach(q, v + Volume(es, j, p))
    ensures var r := ColumnOf(Run(st, width, es).ledger, j, p);
      Tidy(r, q, v + Volume(es, j, p)) && Sum(r) == Sum(ColumnOf(st.ledger, j, p))
    decreases |es|
  {
    hide *;
    if es == [] {
      RunNothing(st, width, es, j, p);
    } else {
      var e := es[0];
      RunHead(st, width, es, j, p, q);
      ReachLess(q, v + EventVolume(e, j, p), v + Volume(es, j, p));
      StepColumn(st, width, e, j, p);
      NextTidy(ColumnOf(st.ledger, j, p), st.orders, e, j, p, q, v);
      RunTidy(Step(st, width, e), width, es[1..], j, p, q, v + EventVolume(e, j, p));
      SoundLists(Run(st, width, es), width, j);
    }
  }

  lemma SoundLists(st: State, width: nat, j: nat)
    requires Sound(st, width) && j < width
    ensures Lists(st.ledger, j)
  {
  }

  lemma ReachLess(q: nat, v: nat, w: nat)
    requires WithinReach(q, w) && v <= w
    ensures WithinReach(q, v)
  {
  }

  /** In every run of the venue the balances of an instrument add up to nothing and
      its check finds just that, provided that all amounts are whole steps of some
      10^q and that less than 10^16 such steps change hands: then nothing is ever
      rounded. */
  lemma VenueBalanced(width: nat, es: seq<Event>, j: nat, p: Part, q: nat)
    requires IsRun(START, width, es) && j < width
    requires GainsInSteps(es, j, p, q) && WithinReach(q, Volume(es, j, p))
    ensures var c := ColumnOf(Run(START, width, es).ledger, j, p); Total(c) == ZERO == CheckSum(c)
  {
    var c := ColumnOf([], j, p);
    assert c == [] && c[..0] == [];
    assert 0 * Pow10(q) == 0;
    assert Tidy(c, q, 0);
    hide Tidy, WithinReach, ColumnOf, Volume, GainsInSteps;
    RunTidy(START, width, es, j, p, q, 0);
    TidyChecks(ColumnOf(Run(START, width, es).ledger, j, p), q, Volume(es, j, p));
  }

  // ----- where something is -----

  /** A trade at price one. */
  function AtOne(maker: nat, taker: nat, n: int): Fill {
    Fill(maker, taker, Exa(Num(n), Num(-n)))
  }

  function Connects(n: nat): seq<Event> {
    if n == 0 then [] else Connects(n - 1) + [Connect(0)]
  }

  function Orders(k: nat): seq<Event> {
    if k == 0 then [] else Orders(k - 1) + [Order(k)]
  }

  function Ids(k: nat): (ids: seq<nat>)
    ensures |ids| == k && forall i :: 0 <= i < k ==> ids[i] == i + 1
  {
    if k == 0 then [] else Ids(k - 1) + [k]
  }

  function Everyone(n: nat): (us: set<nat>)
    ensures forall u: nat :: u in us <==> 0 < u <= n
  {
    if n == 0 then {} else Everyone(n - 1) + {n}
  }

  function Blank(n: nat): (l: Ledger)
    ensures |l| == n && HasWidth(l, 1) && Lists(l, 0)
  {
    if n == 0 then [] else Blank(n - 1) + [NewRow(1)]
  }

  function Nothing(n: nat): (c: Column)
    ensures |c| == n
  {
    if n == 0 then [] else Nothing(n - 1) + [ZERO]
  }

  lemma {:induction false} RunConcat(st: State, width: nat, a: seq<Event>, b: seq<Event>)
    requires Sound(st, width) && IsRun(st, width, a) && IsRun(Run(st, width, a), width, b)
    ensures IsRun(st, width, a + b) && Run(st, width, a + b) == Run(Run(st, width, a), width, b)
    decreases |a|
  {
    if a == [] {
      assert a + b == b;
    } else {
      assert (a + b)[1..] == a[1..] + b;
      RunConcat(Step(st, width, a[0]), width, a[1..], b);
    }
  }

  lemma RunLast(st: State, width: nat, a: seq<Event>, e: Event)
    requires Sound(st, width) && IsRun(st, width, a) && CanHappen(Run(st, width, a), width, e)
    ensures IsRun(st, width, a + [e]) && Run(st, width, a + [e]) == Step(Run(st, width, a), width, e)
  {
    var r := Run(st, width, a);
    assert [e][1..] == [];
    assert IsRun(Step(r, width, e), width, []);
    RunConcat(st, width, a, [e]);
  }

  lemma {:induction false} Connected(n: nat)
    ensures IsRun(START, 1, Connects(n)) && Run(START, 1, Connects(n)) == State(Blank(n), [], Everyone(n))
  {
    if n > 0 {
      Connected(n - 1);
      RunLast(START, 1, Connects(n - 1), Connect(0));
    }
  }

  lemma {:induction false} Entered(n: nat, k: nat)
    requires k <= n
    ensures var es := Connects(n) + Orders(k);
      IsRun(START, 1, es) && Run(START, 1, es) == State(Blank(n), Ids(k), Everyone(n))
    decreases k
  {
    if k == 0 {
      Connected(n);
      assert Connects(n) + [] == Connects(n);
    } else {
      Entered(n, k - 1);
      var before := Connects(n) + Orders(k - 1);
      assert Connects(n) + Orders(k) == before + [Order(k)];
      RunLast(START, 1, before, Order(k));
    }
  }

  lemma {:induction false} BlankColumn(n: nat, p: Part)
    ensures ColumnOf(Blank(n), 0, p) == Nothing(n)
  {
    if n > 0 {
      BlankColumn(n - 1, p);
      AddUserColumn(Blank(n - 1), 1, 0, p);
    }
  }

  /** So many users connect, enter an order each, and these meet. */
  function Session(n: nat, fills: seq<Fill>): seq<Event> {
    Connects(n) + Orders(n) + [Execute(0, fills)]
  }

  lemma SessionColumn(n: nat, fills: seq<Fill>, p: Part)
    requires FillsNamed(fills, n)
    ensures IsRun(START, 1, Session(n, fills))
    ensures ColumnOf(Run(START, 1, Session(n, fills)).ledger, 0, p) == Filled(Nothing(n), Ids(n), fills, p)
  {
    hide ColumnOf, Filled, SettleAll, TradesOf;
    Entered(n, n);
    RunLast(START, 1, Connects(n) + Orders(n), Execute(0, fills));
    BlankColumn(n, p);
    FilledColumn(Blank(n), 0, Ids(n), fills, 0, p);
  }

  lemma FilledTwice(n: nat, f: Fill, g: Fill, p: Part)
    requires f.maker < n && f.taker < n && g.maker < n && g.taker < n
    ensures FillsNamed([f, g], n)
    ensures Filled(Nothing(n), Ids(n), [f, g], p)
      == Traded(Traded(Nothing(n), f.maker + 1, f.taker + 1, Of(f.gain, p)), g.maker + 1, g.taker + 1, Of(g.gain, p))
  {
    hide Traded;
    assert [f, g][..1] == [f] && [f][..0] == [];
    assert [f, g][0] == f && [f, g][1] == g;
    var c, ids := Nothing(n), Ids(n);
    assert Filled(c, ids, [], p) == c;
    assert Filled(c, ids, [f], p) == Traded(c, ids[f.maker], ids[f.taker], Of(f.gain, p));
  }

  lemma NothingIs()
    ensures Nothing(3) == [ZERO, ZERO, ZERO] && Nothing(4) == [ZERO, ZERO, ZERO, ZERO]
  {
    assert Nothing(1) == [ZERO] && Nothing(2) == [ZERO, ZERO];
  }

  lemma SumLast(c: Column, a: Amount)
    ensures Sum(c + [a]) == Sum(c) + Value(a) && CheckSum(c + [a]) == Add(CheckSum(c), a)
  {
    hide Add;
    assert (c + [a])[..|c|] == c;
  }

  lemma SumOf3(a: Amount, b: Amount, c: Amount)
    ensures Sum([a, b, c]) == Value(a) + Value(b) + Value(c)
    ensures CheckSum([a, b, c]) == Add(Add(Add(ZERO, a), b), c)
  {
    hide Add;
    SumLast([], a);
    SumLast([a], b);
    SumLast([a, b], c);
    assert [] + [a] == [a] && [a] + [b] == [a, b] && [a, b] + [c] == [a, b, c];
  }

  lemma SumOf4(a: Amount, b: Amount, c: Amount, d: Amount)
    ensures Sum([a, b, c, d]) == Value(a) + Value(b) + Value(c) + Value(d)
    ensures CheckSum([a, b, c, d]) == Add(Add(Add(Add(ZERO, a), b), c), d)
  {
    hide Add, Sum, CheckSum;
    SumOf3(a, b, c);
    SumLast([a, b, c], d);
    assert [a, b, c] + [d] == [a, b, c, d];
  }

  lemma TradeOf(c: Column, maker: nat, taker: nat, g: int, r: Column)
    requires 0 < maker <= |c| == |r| && 0 < taker <= |c| && maker != taker
    requires Add(c[maker - 1], Num(g)) == r[maker - 1] && Add(c[taker - 1], Num(-g)) == r[taker - 1]
    requires forall u :: 0 <= u < |c| && u != maker - 1 && u != taker - 1 ==> c[u] == r[u]
    ensures Traded(c, maker, taker, Num(g)) == r
  {
    hide Add;
  }

  /** Two trades of four users who had nothing, each with one of the others. */
  lemma TwoPairs(a: int, b: int)
    requires Holds(a) && Holds(-a) && Holds(b) && Holds(-b)
    ensures Traded(Traded([ZERO, ZERO, ZERO, ZERO], 1, 3, Num(a)), 2, 4, Num(b)) == [Num(a), Num(b), Num(-a), Num(-b)]
  {
    FromNothing(a);
    FromNothing(b);
    hide *;
    TradeOf([ZERO, ZERO, ZERO, ZERO], 1, 3, a, [Num(a), ZERO, Num(-a), ZERO]);
    TradeOf([Num(a), ZERO, Num(-a), ZERO], 2, 4, b, [Num(a), Num(b), Num(-a), Num(-b)]);
  }

  /** Two trades with the same user. */
  lemma SameMaker(a: int, b: int, s: Amount)
    requires Holds(a) && Holds(-a) && Holds(-b) && Add(Num(a), Num(b)) == s
    ensures Traded(Traded([ZERO, ZERO, ZERO], 1, 2, Num(a)), 1, 3, Num(b)) == [s, Num(-a), Num(-b)]
  {
    FromNothing(a);
    BookNothing(-b);
    hide *;
    TradeOf([ZERO, ZERO, ZERO], 1, 2, a, [Num(a), Num(-a), ZERO]);
    TradeOf([Num(a), Num(-a), ZERO], 1, 3, b, [s, Num(-a), Num(-b)]);
  }

  lemma SameTaker(a: int, b: int, s: Amount)
    requires Holds(a) && Holds(-a) && Holds(b) && Add(Num(-a), Num(-b)) == s
    ensures Traded(Traded([ZERO, ZERO, ZERO], 1, 3, Num(a)), 2, 3, Num(b)) == [Num(a), Num(b), s]
  {
    FromNothing(a);
    BookNothing(b);
    hide *;
    TradeOf([ZERO, ZERO, ZERO], 1, 3, a, [Num(a), ZERO, Num(-a)]);
    TradeOf([Num(a), ZERO, Num(-a)], 2, 3, b, [Num(a), Num(b), s]);
  }

  lemma FromNothing(a: int)
    requires Holds(a) && Holds(-a)
    ensures Add(ZERO, Num(a)) == Num(a) && Add(ZERO, Num(-a)) == Num(-a)
  {
    hide Add, Holds;
    AddExact(0, a);
    AddExact(0, -a);
  }

  lemma BookNothing(a: int)
    requires Holds(a)
    ensures Add(ZERO, Num(a)) == Num(a)
  {
    hide Add, Holds;
    AddExact(0, a);
  }

  lemma Cancelling(a: int)
    ensures Add(Num(a), Num(-a)) == ZERO
  {
    ZeroHolds();
    hide Add, Holds;
    AddExact(a, -a);
  }

  lemma ZeroHolds()
    ensures Holds(0)
  {
    assert 0 == 0 * Pow10(0);
    hide Pow10;
    BelowLimit(0);
  }

  /** A session of two trades, seen in the instrument. */
  lemma TwoTrades(n: nat, f: Fill, g: Fill)
    requires f.maker < n && f.taker < n && g.maker < n && g.taker < n
    ensures IsRun(START, 1, Session(n, [f, g]))
    ensures ColumnOf(Run(START, 1, Session(n, [f, g])).ledger, 0, Base) == Traded(
      Traded(Nothing(n), f.maker + 1, f.taker + 1, f.gain.base), g.maker + 1, g.taker + 1, g.gain.base)
  {
    hide Filled, Session, IsRun, Run, ColumnOf, Traded, Nothing, Ids, FillsNamed;
    FilledTwice(n, f, g, Base);
    SessionColumn(n, [f, g], Base);
  }

  lemma SumsOf3(a: int, b: int, c: int, s: Amount)
    requires Add(Add(Num(a), Num(b)), Num(c)) == s && Holds(a)
    ensures Total([Num(a), Num(b), Num(c)]) == Num(a + b + c) && CheckSum([Num(a), Num(b), Num(c)]) == s
  {
    BookNothing(a);
    hide Add, Sum, CheckSum;
    SumOf3(Num(a), Num(b), Num(c));
  }

  lemma SumsOf4(a: int, b: int, c: int, d: int, s: Amount)
    requires Add(Add(Add(Num(a), Num(b)), Num(c)), Num(d)) == s && Holds(a)
    ensures Total([Num(a), Num(b), Num(c), Num(d)]) == Num(a + b + c + d)
    ensures CheckSum([Num(a), Num(b), Num(c), Num(d)]) == s
  {
    BookNothing(a);
    hide Add, Sum, CheckSum;
    SumOf4(Num(a), Num(b), Num(c), Num(d));
  }

  /** The check fails on balances that do add up to nothing, and none of which was
      rounded: users 1 and 2 gain 10^16 and one from users 3 and 4.  With k = 398 the
      amounts are 10000000000000000 and 1. */
  lemma CheckFailsOnBalanced(k: nat, big: int, one: int)
    requires k <= 766 && one == Pow10(k) && big == SIXTEEN * one
    ensures var es := Session(4, [AtOne(0, 2, big), AtOne(1, 3, one)]);
      && IsRun(START, 1, es)
      && var c := ColumnOf(Run(START, 1, es).ledger, 0, Base);
      c == [Num(big), Num(one), Num(-big), Num(-one)] && Total(c) == ZERO && CheckSum(c) == Num(-one) != ZERO
  {
    hide *;
    Absorbed(k, big, one);
    ZeroIs(0);
    ZeroIs(one);
    AtOneIs(0, 2, big);
    AtOneIs(1, 3, one);
    TwoTrades(4, AtOne(0, 2, big), AtOne(1, 3, one));
    NothingIs();
    TwoPairs(big, one);
    Cancelling(big);
    FromNothing(one);
    SumsOf4(big, one, -big, -one, Num(-one));
  }

  lemma ZeroIs(n: int)
    ensures (Num(n) == ZERO <==> n == 0) && (Num(-n) == ZERO <==> n == 0)
  {
  }

  lemma AtOneIs(maker: nat, taker: nat, n: int)
    ensures AtOne(maker, taker, n).maker == maker && AtOne(maker, taker, n).taker == taker
    ensures AtOne(maker, taker, n).gain.base == Num(n)
  {
  }

  /** A booking that is rounded leaves balances that do not add up to nothing: user 1
      gains 10^16 from user 2 and then one from user 3. */
  lemma BookingLosesOne(k: nat, big: int, one: int)
    requires k <= 766 && one == Pow10(k) && big == SIXTEEN * one
    ensures var es := Session(3, [AtOne(0, 1, big), AtOne(0, 2, one)]);
      && IsRun(START, 1, es)
      && var c := ColumnOf(Run(START, 1, es).ledger, 0, Base);
      c == [Num(big), Num(-big), Num(-one)] && Total(c) == Num(-one) != ZERO && CheckSum(c) == Num(-one)
  {
    hide *;
    Absorbed(k, big, one);
    ZeroIs(0);
    ZeroIs(one);
    AtOneIs(0, 1, big);
    AtOneIs(0, 2, one);
    TwoTrades(3, AtOne(0, 1, big), AtOne(0, 2, one));
    NothingIs();
    SameMaker(big, one, Num(big));
    Cancelling(big);
    FromNothing(one);
    SumsOf3(big, -big, -one, Num(-one));
  }

  /** And the check may pass where the balances do not add up: users 1 and 2 gain
      10^16 and one from user 3. */
  lemma CheckPassesOnUnbalanced(k: nat, big: int, one: int)
    requires k <= 766 && one == Pow10(k) && big == SIXTEEN * one
    ensures var es := Session(3, [AtOne(0, 2, big), AtOne(1, 2, one)]);
      && IsRun(START, 1, es)
      && var c := ColumnOf(Run(START, 1, es).ledger, 0, Base);
      c == [Num(big), Num(one), Num(-big)] && Total(c) == Num(one) != ZERO && CheckSum(c) == ZERO
  {
    hide *;
    Absorbed(k, big, one);
    ZeroIs(0);
    ZeroIs(one);
    AtOneIs(0, 2, big);
    AtOneIs(1, 2, one);
    TwoTrades(3, AtOne(0, 2, big), AtOne(1, 2, one));
    NothingIs();
    SameTaker(big, one, Num(-big));
    Cancelling(big);
    SumsOf3(big, one, -big, ZERO);
  }
}
