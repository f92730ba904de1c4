/** The venue's users and their balances, as they are kept. */
module Accounts {
  import opened Amounts
  import opened Arith
  import opened Ledgers

  // ----- the flattened table -----

  /** Where the balance of user u + 1 in instrument i is kept. */
  function Slot(u: nat, width: nat, i: nat): nat {
    u * width + i
  }

  lemma SlotBelow(u: nat, n: nat, width: nat, i: nat)
    requires u < n && i < width
    ensures Slot(u, width, i) < n * width
  {
    NextMultiple(width, u, n);
    assert width * u == u * width && width * n == n * width;
  }

  lemma SlotInjective(u: nat, i: nat, v: nat, j: nat, width: nat)
    requires i < width && j < width
    ensures Slot(u, width, i) == Slot(v, width, j) <==> u == v && i == j
  {
    if u < v {
      SlotBelow(u, v, width, i);
    } else if v < u {
      SlotBelow(v, u, width, j);
    }
  }

  lemma RoomGrows(n: nat, m: nat, width: nat)
    requires n <= m
    ensures n * width <= m * width
  {
    assert m * width == n * width + (m - n) * width;
  }

  class Venue {
    const ninstr: nat
    var nuser: nat
    var zuser: nat
    var socks: array<int>
    var accts: array<Exa>
    /** Whose the orders in the book are. */
    var orders: seq<nat>
    /** The users of the connections there are. */
    var open: set<nat>

    /** The number of columns: one even if no instrument was named. */
    function Width(): (w: nat)
      ensures w > 0
    {
      if ninstr == 0 then 1 else ninstr
    }

    ghost predicate Valid()
      reads this
    {
      nuser <= zuser && socks.Length == zuser && accts.Length == zuser * Width()
    }

    /** The balances as a ledger. */
    ghost function Contents(): (l: Ledger)
      requires Valid()
      reads this, accts
      ensures |l| == nuser && HasWidth(l, Width())
      ensures forall u, i {:trigger l[u][i]} {:trigger Slot(u, Width(), i)} ::
        0 <= u < nuser && 0 <= i < Width() ==>
          Slot(u, Width(), i) < accts.Length && l[u][i] == accts[Slot(u, Width(), i)]
    {
      Slots();
      seq(nuser, u requires 0 <= u < nuser && Valid() && InTable() reads this, accts => Row(u))
    }

    ghost function Now(): State
      requires Valid()
      reads this, accts
    {
      State(Contents(), orders, open)
    }

    ghost predicate InTable()
      reads this
    {
      forall u, i {:trigger Slot(u, Width(), i)} ::
        0 <= u < nuser && 0 <= i < Width() ==> Slot(u, Width(), i) < accts.Length
    }

    lemma Slots()
      requires Valid()
      ensures InTable()
    {
      forall u: nat, i: nat | u < nuser && i < Width() ensures Slot(u, Width(), i) < accts.Length {
        SlotBelow(u, nuser, Width(), i);
        RoomGrows(nuser, zuser, Width());
      }
    }

    ghost function Row(u: nat): (row: seq<Exa>)
      requires u < nuser && Valid() && InTable()
      reads this, accts
      ensures |row| == Width() && forall i :: 0 <= i < Width() ==> row[i] == accts[Slot(u, Width(), i)]
    {
      seq(Width(), i requires 0 <= i < Width() && u < nuser && InTable() reads this, accts =>
        accts[Slot(u, Width(), i)])
    }

    /** The table holds a ledger if it does so entry by entry. */
    lemma Same(l: Ledger)
      requires Valid() && |l| == nuser && HasWidth(l, Width())
      requires InTable()
      requires forall u, i {:trigger l[u][i]} ::
        0 <= u < nuser && 0 <= i < Width() ==> l[u][i] == accts[Slot(u, Width(), i)]
      ensures Contents() == l
    {
      var c := Contents();
      forall u | 0 <= u < nuser ensures c[u] == l[u] {
        assert forall i :: 0 <= i < Width() ==> c[u][i] == l[u][i];
      }
    }

    constructor (n: nat)
      ensures Valid() && ninstr == n && Now() == START && fresh(socks) && fresh(accts)
    {
      ninstr := n;
      nuser := 0;
      zuser := 0;
      socks := new int[0];
      accts := new Exa[0];
      orders := [];
      open := {};
    }

    /** Makes both tables twice as long and keeps what is in them. */
    method Grow()
      requires Valid()
      modifies `zuser, `socks, `accts
      ensures Valid() && nuser < zuser
      ensures fresh(socks) && fresh(accts) && Contents() == old(Contents())
      ensures socks[..nuser] == old(socks[..nuser])
    {
      ghost var l := Contents();
      Slots();
      var z := if zuser == 0 then 64 else zuser * 2;
      RoomGrows(zuser, z, Width());
      var s, a := new int[z], new Exa[z * Width()];
      forall i | 0 <= i < socks.Length {
        s[i] := socks[i];
      }
      forall i | 0 <= i < accts.Length {
        a[i] := accts[i];
      }
      assert s[..nuser] == socks[..nuser];
      assert forall u, i {:trigger l[u][i]} ::
        0 <= u < nuser && 0 <= i < Width() ==> l[u][i] == a[Slot(u, Width(), i)];
      zuser, socks, accts := z, s, a;
      Slots();
      Same(l);
    }

    /** A new user starts with nothing and gets the next id; nobody else's balances
        move, also when the tables have to grow. */
    method AddUser(sock: int) returns (u: nat)
      requires Valid()
      modifies `nuser, `zuser, `socks, `accts, socks, accts
      ensures Valid() && u == nuser == old(nuser) + 1
      ensures Contents() == old(Contents()) + [NewRow(Width())]
      ensures socks[..nuser] == old(socks[..nuser]) + [sock]
      ensures (socks == old(socks) && accts == old(accts)) || (fresh(socks) && fresh(accts))
    {
      if nuser >= zuser {
        Grow();
      }
      ghost var l := Contents();
      Slots();
      SlotBelow(nuser, zuser, Width(), 0);
      socks[nuser] := sock;
      PutRow();
      nuser := nuser + 1;
      Slots();
      Same(l + [NewRow(Width())]);
      return nuser;
    }

    /** The next free row is filled with nothing. */
    method PutRow()
      requires Valid() && nuser < zuser
      modifies accts
      ensures forall i :: 0 <= i < Width() ==>
        Slot(nuser, Width(), i) < accts.Length && accts[Slot(nuser, Width(), i)] == NOTHING
      ensures Contents() == old(Contents())
    {
      ghost var l, w := Contents(), Width();
      Slots();
      RoomGrows(nuser + 1, zuser, w);
      assert (nuser + 1) * w == nuser * w + w;
      FillRow(nuser * w);
      forall u, k | 0 <= u < nuser && 0 <= k < w ensures l[u][k] == accts[Slot(u, w, k)] {
        SlotBelow(u, nuser, w, k);
      }
      Same(l);
    }

    method FillRow(ghost at: nat)
      requires Valid() && at == nuser * Width() && at + Width() <= accts.Length
      modifies accts
      ensures forall k :: at <= k < at + Width() ==> accts[k] == NOTHING
      ensures forall k :: 0 <= k < at ==> accts[k] == old(accts[k])
    {
      accts[nuser * Width()] := NOTHING;
      var i := 1;
      while i < ninstr
        invariant 1 <= i && (i <= ninstr || i == 1)
        invariant forall k :: at <= k < at + i ==> accts[k] == NOTHING
        invariant forall k :: 0 <= k < at ==> accts[k] == old(accts[k])
      {
        assert nuser * ninstr + i == at + i;
        accts[nuser * ninstr + i] := NOTHING;
        i := i + 1;
      }
    }

    /** The socket of a user, -1 for nobody. */
    method UserSock(u: nat) returns (s: int)
      requires Valid() && u <= nuser
      ensures s == if u == 0 then -1 else socks[u - 1]
    {
      if u == 0 {
        return -1;
      }
      return socks[u - 1];
    }

    /** Adds to one balance and says what it is now. */
    method AddAcct(u: nat, i: nat, a: Exa) returns (now: Exa)
      requires Valid() && u <= nuser && i < Width()
      modifies accts
      ensures Contents() == Credit(old(Contents()), u, i, a)
      ensures now == BalanceOf(Contents(), u, i)
    {
      if u == 0 {
        return NOTHING;
      }
      ghost var l, w := Contents(), Width();
      Slots();
      var slot := (u - 1) * Width() + i;
      assert slot == Slot(u - 1, w, i);
      assert l[u - 1][i] == accts[slot];
      hide Add;
      accts[slot] := accts[slot].(base := Add(accts[slot].base, a.base));
      accts[slot] := accts[slot].(term := Add(accts[slot].term, a.term));
      forall v, k | 0 <= v < nuser && 0 <= k < w ensures Credit(l, u, i, a)[v][k] == accts[Slot(v, w, k)] {
        SlotInjective(u - 1, i, v, k, w);
      }
      Same(Credit(l, u, i, a));
      return accts[slot];
    }

    /** Forgets the socket; the balances stay. */
    method KillUser(u: nat) returns (rc: int)
      requires Valid() && u <= nuser
      modifies socks
      ensures Valid() && Contents() == old(Contents())
      ensures u == 0 ==> rc == -1 && socks[..] == old(socks[..])
      ensures u > 0 ==> rc == 0 && socks[..] == old(socks[..])[u - 1 := -1]
    {
      if u == 0 {
        return -1;
      }
      ghost var l := Contents();
      Slots();
      socks[u - 1] := -1;
      Same(l);
      return 0;
    }

    /** Puts the id of a user on an order that goes into the book. */
    method AddOrder(u: nat)
      requires Valid()
      modifies `orders
      ensures Valid() && Contents() == old(Contents()) && orders == old(orders) + [u]
    {
      ghost var l := Contents();
      orders := orders + [u];
      Slots();
      Same(l);
    }

    method SetOpen(us: set<nat>)
      requires Valid()
      modifies `open
      ensures Valid() && Contents() == old(Contents()) && open == us
    {
      ghost var l := Contents();
      open := us;
      Slots();
      Same(l);
    }

    method SettleOne(i: nat, t: Trade) returns (sa: Exa, ca: Exa)
      requires Valid() && i < Width() && t.maker <= nuser && t.taker <= nuser
      modifies accts
      ensures Contents() == Settle(old(Contents()), i, t)
      ensures (sa, ca) == Report(old(Contents()), i, t)
    {
      sa := AddAcct(t.maker, i, t.gain);
      ca := AddAcct(t.taker, i, Contra(t.gain));
    }

    /** Books the trades of one instrument and reports to both sides of each what
        they have then. */
    method DisseminateTrades(i: nat, trades: seq<Trade>) returns (reports: seq<(Exa, Exa)>)
      requires Valid() && i < Width()
      requires forall k :: 0 <= k < |trades| ==> trades[k].maker <= nuser && trades[k].taker <= nuser
      modifies accts
      ensures Contents() == SettleAll(old(Contents()), i, trades)
      ensures reports == Reports(old(Contents()), i, trades)
    {
      hide Settle, Report;
      ghost var l := Contents();
      reports := [];
      for k := 0 to |trades|
        invariant Contents() == SettleAll(l, i, trades[..k])
        invariant reports == Reports(l, i, trades[..k])
      {
        assert trades[..k + 1][..k] == trades[..k];
        var sa, ca := SettleOne(i, trades[k]);
        reports := reports + [(sa, ca)];
      }
      assert trades[..|trades|] == trades;
    }

    /** The venue's own check: it holds exactly if what it adds up to in every
        instrument is nothing. */
    method CheckAccounts() returns (ok: bool)
      requires Valid()
      ensures ok <==> forall j :: 0 <= j < Width() ==> PassesCheck(Contents(), j)
    {
      hide Add, CheckSum, ColumnOf;
      ghost var l := Contents();
      ok := true;
      for j := 0 to Width()
        invariant ok <==> forall k :: 0 <= k < j ==> PassesCheck(l, k)
      {
        ghost var base, term := ColumnOf(l, j, Base), ColumnOf(l, j, Term);
        var s := NOTHING;
        CheckNext(base, 0);
        CheckNext(term, 0);
        for u := 0 to nuser
          invariant s == Exa(CheckSum(base[..u]), CheckSum(term[..u]))
        {
          assert l[u][j] == accts[Slot(u, Width(), j)];
          CheckNext(base, u);
          CheckNext(term, u);
          s := s.(base := Add(s.base, accts[u * Width() + j].base));
          s := s.(term := Add(s.term, accts[u * Width() + j].term));
        }
        assert base[..nuser] == base && term[..nuser] == term;
        assert PassesCheck(l, j) <==> s.base == ZERO && s.term == ZERO;
        ok := ok && s.base == ZERO && s.term == ZERO;
      }
    }

    /** What happens at the venue is what the state machine does. */
    method Handle(e: Event)
      requires Valid() && Sound(Now(), Width()) && CanHappen(Now(), Width(), e)
      modifies this, socks, accts
      ensures Valid() && Now() == Step(old(Now()), Width(), e)
      ensures (socks == old(socks) && accts == old(accts)) || (fresh(socks) && fresh(accts))
    {
      hide Add, SettleAll;
      match e {
        case Connect(sock) =>
          var u := AddUser(sock);
          SetOpen(open + {u});
        case Disconnect(u) =>
          var _ := KillUser(u);
          SetOpen(open - {u});
        case Order(u) =>
          AddOrder(u);
        case Execute(i, fills) =>
          var _ := DisseminateTrades(i, TradesOf(orders, fills));
      }
    }
  }

  lemma CheckNext(c: Column, u: nat)
    requires u <= |c|
    ensures u == 0 ==> CheckSum(c[..u]) == ZERO
    ensures u < |c| ==> CheckSum(c[..u + 1]) == Add(CheckSum(c[..u]), c[u])
  {
    hide Add;
    if u < |c| {
      assert c[..u + 1][..u] == c[..u];
    }
  }

  predicate PassesCheck(l: Ledger, j: nat)
    requires Lists(l, j)
  {
    CheckSum(ColumnOf(l, j, Base)) == ZERO == CheckSum(ColumnOf(l, j, Term))
  }

  /** The amounts of a column are known not to be rounded. */
  ghost predicate NeverRounds(es: seq<Event>, j: nat, p: Part) {
    exists q: nat :: GainsInSteps(es, j, p, q) && WithinReach(q, Volume(es, j, p))
  }

  lemma RunOn(width: nat, es: seq<Event>, k: nat)
    requires k < |es| && IsRun(START, width, es[..k]) && IsRun(Run(START, width, es[..k]), width, es[k..])
    ensures var st := Run(START, width, es[..k]);
      && CanHappen(st, width, es[k])
      && IsRun(START, width, es[..k + 1]) && Run(START, width, es[..k + 1]) == Step(st, width, es[k])
      && IsRun(Step(st, width, es[k]), width, es[k + 1..])
  {
    hide Step;
    assert es[k..][0] == es[k] && es[k..][1..] == es[k + 1..];
    assert es[..k] + [es[k]] == es[..k + 1];
    RunLast(START, width, es[..k], es[k]);
  }

  /** A venue from its start on: it is where the state machine is after the same
      events, and its check passes if nothing could be rounded. */
  method Serve(n: nat, es: seq<Event>) returns (v: Venue, ok: bool)
    requires IsRun(START, if n == 0 then 1 else n, es)
    ensures fresh(v) && v.Valid() && v.ninstr == n && v.Now() == Run(START, v.Width(), es)
    ensures ok <==> forall j :: 0 <= j < v.Width() ==> PassesCheck(v.Contents(), j)
    ensures (forall j :: 0 <= j < v.Width() ==> NeverRounds(es, j, Base) && NeverRounds(es, j, Term)) ==> ok
  {
    v := new Venue(n);
    ghost var w := v.Width();
    for k := 0 to |es|
      invariant v.Valid() && fresh(v) && fresh(v.socks) && fresh(v.accts) && v.ninstr == n
      invariant IsRun(START, w, es[..k]) && v.Now() == Run(START, w, es[..k])
      invariant IsRun(v.Now(), w, es[k..])
    {
      RunOn(w, es, k);
      hide Sound, Step, CanHappen, IsRun, Run;
      v.Handle(es[k]);
    }
    assert es[..|es|] == es;
    ok := v.CheckAccounts();
    forall j | 0 <= j < w && NeverRounds(es, j, Base) && NeverRounds(es, j, Term)
      ensures PassesCheck(v.Contents(), j)
    {
      NeverRoundedPasses(w, es, j);
    }
  }

  lemma NeverRoundedPasses(width: nat, es: seq<Event>, j: nat)
    requires IsRun(START, width, es) && j < width
    requires NeverRounds(es, j, Base) && NeverRounds(es, j, Term)
    ensures PassesCheck(Run(START, width, es).ledger, j)
  {
    var q: nat :| GainsInSteps(es, j, Base, q) && WithinReach(q, Volume(es, j, Base));
    var r: nat :| GainsInSteps(es, j, Term, r) && WithinReach(r, Volume(es, j, Term));
    VenueBalanced(width, es, j, Base, q);
    VenueBalanced(width, es, j, Term, r);
  }
}
