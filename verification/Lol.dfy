/** Numbers inside messages: decimals as the codec reads and prints them, and
    integers as the C library does. */
module Fields {
  import opened Numeral
  import opened Decimal
  import opened Coding64
  import opened Parsing
  import opened Printing
  import opened ReadBack
  import opened Strings64

  /** A price or quantity; the empty book has none. */
  datatype Px = Num(x: Finite) | NaN

  const ZERO := Num(Finite(false, 0, 0))

  function PxText(p: Px): string {
    if p.NaN? then "nan" else Shown(p.x)
  }

  /** A decimal read off the front of a text, or a loop that does not end. */
  datatype Scan = Scan(x: Finite, rest: string) | Stuck

  function StrToD(s: string): Scan {
    var p := Split(s);
    if Spins(D64, p) then Stuck else Scan(DecodeBid(ReadBid(p)), s[p.next..])
  }

  /** What was printed is read back, and the rest of the text is left. */
  lemma StrToDShown(x: Finite, rest: string)
    requires Survives(x) && Delimits(rest)
    ensures var r := StrToD(Shown(x) + rest); r.Scan? && r.rest == rest && SameNumeral(x, r.x)
  {
    ShortRoundTrip(x, rest);
    hide Split, Spins, ReadBid, DecodeBid, SameNumeral, Shown;
    assert (Shown(x) + rest)[|Shown(x)|..] == rest;
  }

  /** Something that is no numeral is read as zero, and nothing is passed over. */
  lemma StrToDNone(s: string)
    requires !IsDigit(At(s, 0)) && At(s, 0) != '.' && At(s, 0) != '-' && At(s, 0) != '+'
    ensures var r := StrToD(s); r.Scan? && r.rest == s
  {
    assert Split(s) == Parts(false, "", false, "", 0);
  }

  // ----- integers -----

  function DecimalText(n: nat): string {
    if n == 0 then "0" else Whole(n)
  }

  predicate IsSpace(c: char) {
    c == ' ' || '\t' <= c <= '\r'
  }

  function DigitIn(c: char, base: nat): (d: int)
    ensures -1 <= d < base || d == -1
  {
    var d := if '0' <= c <= '9' then c as int - '0' as int
             else if 'a' <= c <= 'z' then c as int - 'a' as int + 10
             else if 'A' <= c <= 'Z' then c as int - 'A' as int + 10
             else -1;
    if d < base then d else -1
  }

  /** Value and end of a run of digits. */
  function ReadBase(s: string, base: nat, acc: nat): (nat, string) {
    if s != "" && DigitIn(s[0], base) >= 0 then ReadBase(s[1..], base, acc * base + DigitIn(s[0], base)) else (acc, s)
  }

  function SkipSpaces(s: string): string {
    if s != "" && IsSpace(s[0]) then SkipSpaces(s[1..]) else s
  }

  const MAX: nat := 0xffff_ffff_ffff_ffff

  /** The library's unsigned conversion with base 0: white space, a sign, then a
      number whose base its prefix tells; too large a number is cut to the maximum. */
  function StrToUl(s: string): (nat, string) {
    var t := SkipSpaces(s);
    var neg := At(t, 0) == '-';
    var u := if At(t, 0) == '-' || At(t, 0) == '+' then t[1..] else t;
    if At(u, 0) == '0' && (At(u, 1) == 'x' || At(u, 1) == 'X') && DigitIn(At(u, 2), 16) >= 0 then
      var (v, rest) := ReadBase(u[2..], 16, 0);
      (Limit(neg, v), rest)
    else if DigitIn(At(u, 0), 10) < 0 then (0, s)
    else
      var (v, rest) := ReadBase(u, if At(u, 0) == '0' then 8 else 10, 0);
      (Limit(neg, v), rest)
  }

  function Limit(neg: bool, v: nat): nat {
    if v > MAX then MAX else if neg && v > 0 then MAX + 1 - v else v
  }

  /** The base is told by the prefix; blanks and a sign may stand in front. */
  lemma BasesTold()
    ensures StrToUl("42\n") == (42, "\n") && StrToUl("052\n") == (42, "\n") && StrToUl("0x2A\n") == (42, "\n")
    ensures StrToUl(" \t+42\n") == (42, "\n") && StrToUl("-1\n") == (MAX, "\n") && StrToUl("x\n") == (0, "x\n")
  {
    assert "42\n"[1..] == "2\n" && "2\n"[1..] == "\n" && "052\n"[1..] == "52\n" && "52\n"[1..] == "2\n";
    assert "0x2A\n"[2..] == "2A\n" && "2A\n"[1..] == "A\n" && "A\n"[1..] == "\n";
    assert " \t+42\n"[1..] == "\t+42\n" && "\t+42\n"[1..] == "+42\n" && "+42\n"[1..] == "42\n";
    assert "-1\n"[1..] == "1\n" && "1\n"[1..] == "\n";
    assert ReadBase("2\n", 10, 4) == (42, "\n") && ReadBase("42\n", 10, 0) == (42, "\n");
    assert ReadBase("2\n", 8, 5) == (42, "\n") && ReadBase("52\n", 8, 0) == (42, "\n");
    assert ReadBase("052\n", 8, 0) == ReadBase("52\n", 8, 0);
  }

  /** The number digits spell, read from the front. */
  function Fold(acc: nat, w: string): nat
    requires AllDigits(w)
    decreases |w|
  {
    if w == "" then acc else Fold(acc * 10 + DigitOf(w[0]), w[1..])
  }

  lemma {:induction false} FoldLast(acc: nat, w: string, c: char)
    requires AllDigits(w) && IsDigit(c)
    ensures Fold(acc, w + [c]) == Fold(acc, w) * 10 + DigitOf(c)
    decreases |w|
  {
    if w == "" {
      assert (w + [c])[1..] == "";
    } else {
      FoldLast(acc * 10 + DigitOf(w[0]), w[1..], c);
      assert (w + [c])[1..] == w[1..] + [c];
    }
  }

  lemma {:induction false} FoldWhole(n: nat)
    ensures Fold(0, Whole(n)) == n
  {
    if n > 0 {
      FoldWhole(n / 10);
      FoldLast(0, Whole(n / 10), CharOf(n % 10));
    }
  }

  lemma {:induction false} ReadBaseDigits(w: string, rest: string, acc: nat)
    requires AllDigits(w) && DigitIn(At(rest, 0), 10) < 0
    ensures ReadBase(w + rest, 10, acc) == (Fold(acc, w), rest)
    decreases |w|
  {
    if w == "" {
      assert w + rest == rest;
    } else {
      ReadBaseDigits(w[1..], rest, acc * 10 + DigitOf(w[0]));
      assert (w + rest)[1..] == w[1..] + rest;
    }
  }

  /** A written integer is read back, with or without a tab in front. */
  lemma StrToUlDecimal(n: nat, rest: string)
    requires n <= MAX && (At(rest, 0) == '\n' || At(rest, 0) == '\t')
    ensures StrToUl(DecimalText(n) + rest) == (n, rest) == StrToUl("\t" + (DecimalText(n) + rest))
  {
    var s := DecimalText(n) + rest;
    assert ("\t" + s)[1..] == s;
    assert SkipSpaces("\t" + s) == SkipSpaces(s);
    FrontOf(n, rest);
    assert SkipSpaces(s) == s;
    hide SkipSpaces, DecimalText;
    if n == 0 {
      ReadZero(rest);
    } else {
      ReadWholeNumber(n, rest);
    }
  }

  lemma FrontOf(n: nat, rest: string)
    ensures IsDigit(At(DecimalText(n) + rest, 0)) && (n > 0 ==> At(DecimalText(n) + rest, 0) != '0')
    ensures n == 0 ==> At(DecimalText(n) + rest, 0) == '0' && At(DecimalText(n) + rest, 1) == At(rest, 0)
  {
  }

  lemma ReadZero(rest: string)
    requires At(rest, 0) == '\n' || At(rest, 0) == '\t'
    ensures ReadBase(DecimalText(0) + rest, 8, 0) == (0, rest)
  {
    assert ("0" + rest)[1..] == rest;
  }

  lemma ReadWholeNumber(n: nat, rest: string)
    requires n > 0 && (At(rest, 0) == '\n' || At(rest, 0) == '\t')
    ensures ReadBase(DecimalText(n) + rest, 10, 0) == (n, rest)
  {
    hide Whole;
    FoldWhole(n);
    ReadBaseDigits(Whole(n), rest, 0);
  }
}

/** The messages between the venue and its clients: what they look like on the
    wire, and receiving them. */
module Lol {
  import opened Numeral
  import opened ReadBack
  import opened Strings64
  import opened Fields
  import Printing

  datatype Option<T> = None | Some(value: T)

  datatype OrderType = Lmt | Mkt

  /** An order id; side 0 is ask, side 1 is bid. */
  datatype Oid = Oid(typ: OrderType, sid: int, prc: Px, qid: nat)

  const NIL_OID := Oid(Lmt, 0, ZERO, 0)

  /** An order: displayed and hidden quantity, a limit price or a slippage. */
  datatype Order = Order(typ: OrderType, sid: int, dis: Px, hid: Px, lmt: Px, slp: Px)

  datatype Balance = Balance(base: Px, term: Px)

  datatype Exe = Exe(qty: Px, prc: Px)

  /** Messages about orders.  A received fill without an order id has none: the
      program leaves that field unset. */
  datatype Omsg =
    | UnknownOmsg
    | Acc(ins: string, exa: Balance)
    | Fil(ins: string, fid: Option<Oid>, exe: Exe, con: nat)
    | Kil(ins: string, oid: Oid)
    | Nok(ins: string, oid: Oid)
    | Acked(ins: string, oid: Oid)
    | Can(ins: string, oid: Oid)
    | Ord(ins: string, ord: Order)

  datatype Quote = Quote(sid: int, prc: Px, qty: Px)

  datatype Auction = Auction(prc: Px, qty: Px, imb: Px)

  /** Messages about quotes. */
  datatype Qmsg =
    | UnknownQmsg
    | Top(ins: string, quo: Quote)
    | Lvl(ins: string, quo: Quote)
    | Tra(ins: string, quo: Quote)
    | Auc(ins: string, auc: Auction)
    | Imb(ins: string, auc: Auction)

  /** What receiving gives, unless reading a number does not end. */
  datatype Received<T> = Received(value: T) | Hangs

  /** The side of a trade, which has none. */
  const NO_SIDE := 2

  predicate IsSide(sid: int) {
    sid == 0 || sid == 1
  }

  // ----- on the wire -----

  function OidText(o: Oid): string {
    (if o.typ.Lmt? then "LMT " else "MKT ") + (if o.sid == 0 then "ASK " else "BID ")
    + PxText(o.prc) + " " + DecimalText(o.qid) + "\n"
  }

  predicate Positive(p: Px) {
    p.Num? && !p.x.neg && p.x.coef > 0
  }

  function HiddenText(o: Order): string {
    if Positive(o.hid) then "+" + PxText(o.hid) else ""
  }

  function LimitText(o: Order): string {
    if o.typ.Lmt? then "\t" + PxText(o.lmt) else ""
  }

  function OrderText(o: Order): string {
    PxText(o.dis) + HiddenText(o) + LimitText(o) + "\n"
  }

  /** Two numbers with a tab between them. */
  function PairText(p: Px, q: Px): string {
    PxText(p) + "\t" + PxText(q)
  }

  function FilText(fid: Option<Oid>, exe: Exe, con: nat): string {
    PairText(exe.qty, exe.prc) + "\t" + DecimalText(con)
    + if HasId(fid) then "\t" + OidText(fid.value) else "\n"
  }

  function Tag(m: Omsg): string {
    match m
    case UnknownOmsg => "UNK\t"
    case Acc(_, _) => "ACC\t"
    case Fil(_, _, _, _) => "FIL\t"
    case Kil(_, _) => "KIL\t"
    case Nok(_, _) => "NOK\t"
    case Acked(_, _) => "OID\t"
    case Can(_, _) => "CAN\t"
    case Ord(_, o) => if o.sid == 0 then "SEL\t" else "BUY\t"
  }

  function Body(m: Omsg): string
    requires !m.UnknownOmsg?
  {
    if m.Acc? then PairText(m.exa.base, m.exa.term) + "\n"
    else if m.Fil? then FilText(m.fid, m.exe, m.con)
    else if m.Ord? then OrderText(m.ord)
    else OidText(m.oid)
  }

  function Framed(tag: string, ins: string, body: string): string {
    tag + ins + "\t" + body
  }

  function Wire(m: Omsg): string
    requires !m.UnknownOmsg?
  {
    Framed(Tag(m), m.ins, Body(m))
  }

  function QTag(m: Qmsg): string
    requires !m.UnknownQmsg?
  {
    match m
    case Top(_, q) => if q.sid == 0 then "A1\t" else "B1\t"
    case Lvl(_, q) => if q.sid == 0 then "A2\t" else "B2\t"
    case Tra(_, _) => "TRA\t"
    case Auc(_, _) => "AUC\t"
    case Imb(_, _) => "IMB\t"
  }

  /** The two numbers a quote message carries. */
  function QPair(m: Qmsg): (Px, Px)
    requires !m.UnknownQmsg?
  {
    if m.Auc? then (m.auc.prc, m.auc.qty)
    else if m.Imb? then (m.auc.prc, m.auc.imb)
    else (m.quo.prc, m.quo.qty)
  }

  function QBody(m: Qmsg): string
    requires !m.UnknownQmsg?
  {
    var (p, q) := QPair(m);
    PairText(p, q) + "\n"
  }

  function QWire(m: Qmsg): string
    requires !m.UnknownQmsg?
  {
    Framed(QTag(m), m.ins, QBody(m))
  }

  // ----- the same, word by word -----

  /** An order id in all its four kinds. */
  lemma OidSpelled(p: Px, n: nat)
    ensures OidText(Oid(Lmt, 0, p, n)) == "LMT ASK " + PxText(p) + " " + DecimalText(n) + "\n"
    ensures OidText(Oid(Lmt, 1, p, n)) == "LMT BID " + PxText(p) + " " + DecimalText(n) + "\n"
    ensures OidText(Oid(Mkt, 0, p, n)) == "MKT ASK " + PxText(p) + " " + DecimalText(n) + "\n"
    ensures OidText(Oid(Mkt, 1, p, n)) == "MKT BID " + PxText(p) + " " + DecimalText(n) + "\n"
  {
    hide PxText, DecimalText;
    assert "LMT " + "ASK " == "LMT ASK " && "LMT " + "BID " == "LMT BID ";
    assert "MKT " + "ASK " == "MKT ASK " && "MKT " + "BID " == "MKT BID ";
  }

  /** Orders: to buy and to sell, with a limit or at the market, with and without a
      hidden quantity. */
  lemma OrdersSpelled(ins: string, o: Order)
    requires IsSide(o.sid)
    ensures var side, hides := if o.sid == 1 then "BUY\t" else "SEL\t", o.hid.Num? && !o.hid.x.neg && o.hid.x.coef > 0;
      var d, h, l := PxText(o.dis), PxText(o.hid), PxText(o.lmt);
      && (o.typ.Lmt? && hides ==> Wire(Ord(ins, o)) == side + ins + "\t" + (d + "+" + h + "\t" + l + "\n"))
      && (o.typ.Lmt? && !hides ==> Wire(Ord(ins, o)) == side + ins + "\t" + (d + "\t" + l + "\n"))
      && (o.typ.Mkt? && hides ==> Wire(Ord(ins, o)) == side + ins + "\t" + (d + "+" + h + "\n"))
      && (o.typ.Mkt? && !hides ==> Wire(Ord(ins, o)) == side + ins + "\t" + (d + "\n"))
  {
    assert Positive(o.hid) <==> o.hid.Num? && !o.hid.x.neg && o.hid.x.coef > 0;
    OrderTextIs(o);
    hide PxText, Positive, OrderText;
  }

  lemma OrderTextIs(o: Order)
    ensures var d, h, l := PxText(o.dis), PxText(o.hid), PxText(o.lmt);
      OrderText(o) == if o.typ.Lmt? then if Positive(o.hid) then d + "+" + h + "\t" + l + "\n" else d + "\t" + l + "\n"
      else if Positive(o.hid) then d + "+" + h + "\n" else d + "\n"
  {
    var d, h, l := PxText(o.dis), PxText(o.hid), PxText(o.lmt);
    hide PxText, Positive;
    assert d + ("+" + h) + ("\t" + l) + "\n" == d + "+" + h + "\t" + l + "\n";
    assert d + "" + ("\t" + l) + "\n" == d + "\t" + l + "\n";
    assert d + ("+" + h) + "" + "\n" == d + "+" + h + "\n";
    assert d + "" + "" + "\n" == d + "\n";
  }

  /** What the venue answers and what is asked about an order id. */
  lemma RepliesSpelled(ins: string, b: Balance, o: Oid, e: Exe, con: nat)
    ensures Wire(Acc(ins, b)) == "ACC\t" + ins + "\t" + (PxText(b.base) + "\t" + PxText(b.term) + "\n")
    ensures Wire(Kil(ins, o)) == "KIL\t" + ins + "\t" + OidText(o)
    ensures Wire(Nok(ins, o)) == "NOK\t" + ins + "\t" + OidText(o)
    ensures Wire(Acked(ins, o)) == "OID\t" + ins + "\t" + OidText(o)
    ensures Wire(Can(ins, o)) == "CAN\t" + ins + "\t" + OidText(o)
    ensures var q, p, u := PxText(e.qty), PxText(e.prc), DecimalText(con);
      && Wire(Fil(ins, None, e, con)) == "FIL\t" + ins + "\t" + (q + "\t" + p + "\t" + u + "\n")
      && (o.qid == 0 ==> Wire(Fil(ins, Some(o), e, con)) == Wire(Fil(ins, None, e, con)))
      && (o.qid > 0 ==>
        Wire(Fil(ins, Some(o), e, con)) == "FIL\t" + ins + "\t" + (q + "\t" + p + "\t" + u + "\t" + OidText(o)))
  {
    var q, p, u := PxText(e.qty), PxText(e.prc), DecimalText(con);
    hide PxText, OidText, DecimalText;
    assert q + "\t" + p + "\t" + u + ("\t" + OidText(o)) == q + "\t" + p + "\t" + u + "\t" + OidText(o);
  }

  /** Quotes: the ask and the bid on top, those of any level, trades and auctions. */
  lemma QuotesSpelled(ins: string, p: Px, q: Px)
    ensures var body := ins + "\t" + (PxText(p) + "\t" + PxText(q) + "\n");
      && QWire(Top(ins, Quote(0, p, q))) == "A1\t" + body && QWire(Top(ins, Quote(1, p, q))) == "B1\t" + body
      && QWire(Lvl(ins, Quote(0, p, q))) == "A2\t" + body && QWire(Lvl(ins, Quote(1, p, q))) == "B2\t" + body
      && QWire(Tra(ins, Quote(NO_SIDE, p, q))) == "TRA\t" + body
      && QWire(Auc(ins, Auction(p, q, ZERO))) == "AUC\t" + body
      && QWire(Imb(ins, Auction(p, ZERO, q))) == "IMB\t" + body
  {
    var pair := PxText(p) + "\t" + PxText(q) + "\n";
    hide PxText, Framed;
    FramedIs("A1\t", ins, pair);
    FramedIs("B1\t", ins, pair);
    FramedIs("A2\t", ins, pair);
    FramedIs("B2\t", ins, pair);
    FramedIs("TRA\t", ins, pair);
    FramedIs("AUC\t", ins, pair);
    FramedIs("IMB\t", ins, pair);
  }

  /** The quote of an empty book, spelled out. */
  lemma EmptyBookSpelled(ins: string)
    ensures QWire(Top(ins, Quote(0, NaN, ZERO))) == "A1\t" + (ins + "\t" + ("nan" + "\t" + "0" + "\n"))
    ensures QWire(Lvl(ins, Quote(1, NaN, ZERO))) == "B2\t" + (ins + "\t" + ("nan" + "\t" + "0" + "\n"))
  {
    NothingText();
    hide Framed, Shown;
    FramedIs("A1\t", ins, "nan" + "\t" + "0" + "\n");
    FramedIs("B2\t", ins, "nan" + "\t" + "0" + "\n");
  }

  lemma NothingText()
    ensures Shown(ZERO.x) == "0"
  {
    assert Printing.Shifted(0, 0) == 0 && Printing.Zeros(0) == "";
  }

  lemma FramedIs(tag: string, ins: string, body: string)
    ensures Framed(tag, ins, body) == tag + (ins + "\t" + body)
  {
  }

  // ----- receiving -----

  function From(s: string, i: nat): string {
    if i <= |s| then s[i..] else ""
  }

  predicate StartsWith(s: string, tag: string) {
    |tag| <= |s| && s[..|tag|] == tag
  }

  function RecvOid(s: string): Received<Oid> {
    if At(s, 0) != 'L' && At(s, 0) != 'M' then Received(NIL_OID)
    else
      match StrToD(From(s, 8))
      case Stuck => Hangs
      case Scan(prc, on) =>
        if At(on, 0) != ' ' then Received(NIL_OID)
        else
          var typ := if At(s, 0) == 'L' then Lmt else Mkt;
          Received(Oid(typ, At(s, 4) as int - 'A' as int, Num(prc), StrToUl(on[1..]).0))
  }

  /** Two numbers; none if no tab stands between them. */
  function RecvPair(s: string): Received<Option<(Px, Px, string)>> {
    match StrToD(s)
    case Stuck => Hangs
    case Scan(p, on) =>
      if At(on, 0) != '\t' then Received(None)
      else
        match StrToD(on[1..])
        case Stuck => Hangs
        case Scan(q, rest) => Received(Some((Num(p), Num(q), rest)))
  }

  function RecvBalance(s: string): Received<Balance> {
    match RecvPair(s)
    case Hangs => Hangs
    case Received(None) => Received(Balance(ZERO, ZERO))
    case Received(Some((p, q, _))) => Received(Balance(p, q))
  }

  function RecvFil(ins: string, s: string): Received<Omsg> {
    match RecvPair(s)
    case Hangs => Hangs
    case Received(None) => Received(Fil(ins, Some(NIL_OID), Exe(ZERO, NaN), 0))
    case Received(Some((qty, prc, on))) =>
      var (u, rest) := StrToUl(on);
      var con := u % 0x1_0000_0000;
      if At(rest, 0) != '\t' then Received(Fil(ins, None, Exe(qty, prc), con))
      else
        match RecvOid(rest[1..])
        case Hangs => Hangs
        case Received(o) => Received(Fil(ins, Some(o), Exe(qty, prc), con))
  }

  function RecvHidden(s: string): Received<(Px, string)> {
    if At(s, 0) != '+' then Received((ZERO, s))
    else
      match StrToD(s[1..])
      case Stuck => Hangs
      case Scan(x, on) => Received((Num(x), on))
  }

  function RecvOrder(sid: int, s: string): Received<Order> {
    match StrToD(s)
    case Stuck => Hangs
    case Scan(dis, on) =>
      match RecvHidden(on)
      case Hangs => Hangs
      case Received((hid, rest)) =>
        if At(rest, 0) != '\t' then Received(Order(Mkt, sid, Num(dis), hid, ZERO, NaN))
        else
          match StrToD(rest[1..])
          case Stuck => Hangs
          case Scan(lmt, _) => Received(Order(Lmt, sid, Num(dis), hid, Num(lmt), ZERO))
  }

  /** The first tab from i on, before limit. */
  function FindTab(s: string, i: nat, limit: nat): (r: Option<nat>)
    ensures r.Some? ==> i <= r.value < |s|
    decreases limit - i
  {
    if i >= limit || i >= |s| then None else if s[i] == '\t' then Some(i) else FindTab(s, i + 1, limit)
  }

  function WithOid(r: Received<Oid>, m: Oid -> Omsg): Received<Omsg> {
    match r
    case Hangs => Hangs
    case Received(o) => Received(m(o))
  }

  function RecvFields(s: string, ins: string, rest: string): Received<Omsg> {
    if StartsWith(s, "OID\t") then WithOid(RecvOid(rest), o => Acked(ins, o))
    else if StartsWith(s, "ACC\t") then
      match RecvBalance(rest)
      case Hangs => Hangs
      case Received(a) => Received(Acc(ins, a))
    else if StartsWith(s, "FIL\t") then RecvFil(ins, rest)
    else if StartsWith(s, "KIL\t") then WithOid(RecvOid(rest), o => Kil(ins, o))
    else if StartsWith(s, "NOK\t") then WithOid(RecvOid(rest), o => Nok(ins, o))
    else if StartsWith(s, "BUY\t") || StartsWith(s, "SEL\t") then
      match RecvOrder(if At(s, 0) == 'B' then 1 else 0, rest)
      case Hangs => Hangs
      case Received(o) => Received(Ord(ins, o))
    else if StartsWith(s, "CAN\t") then WithOid(RecvOid(rest), o => Can(ins, o))
    else Received(UnknownOmsg)
  }

  /** A message at the front of s; msz is how much of s the caller takes for it, and
      bounds only the search for the end of the instrument. */
  function RecvOmsg(s: string, msz: nat): Received<Omsg> {
    match FindTab(s, 4, if msz >= 4 then msz else |s|)
    case None => Received(UnknownOmsg)
    case Some(eoi) => RecvFields(s, s[4..eoi], s[eoi + 1..])
  }

  function RecvQuote(sid: int, s: string): Received<Quote> {
    match RecvPair(s)
    case Hangs => Hangs
    case Received(None) => Received(Quote(sid, NaN, ZERO))
    case Received(Some((p, q, _))) => Received(Quote(sid, p, q))
  }

  function RecvAuction(isAuc: bool, s: string): Received<Auction> {
    match RecvPair(s)
    case Hangs => Hangs
    case Received(None) => Received(Auction(NaN, ZERO, ZERO))
    case Received(Some((p, q, _))) => Received(if isAuc then Auction(p, q, ZERO) else Auction(p, ZERO, q))
  }

  datatype Kind = TopKind | LvlKind | TraKind | AucKind | ImbKind

  /** The kind of message that the first characters announce. */
  function KindOf(s: string): Option<Kind> {
    var c := At(s, 0);
    if StartsWith(s, "AUC\t") then Some(AucKind)
    else if c == 'A' || c == 'B' then
      if At(s, 2) != '\t' then None
      else if At(s, 1) == '1' then Some(TopKind)
      else if At(s, 1) == '2' then Some(LvlKind)
      else None
    else if StartsWith(s, "IMB\t") then Some(ImbKind)
    else if StartsWith(s, "TRA\t") then Some(TraKind)
    else None
  }

  function TagLength(k: Kind): nat {
    if k.TopKind? || k.LvlKind? then 3 else 4
  }

  function RecvNamed(k: Kind, sid: int, ins: string, s: string): Received<Qmsg> {
    if k.AucKind? || k.ImbKind? then
      match RecvAuction(k.AucKind?, s)
      case Hangs => Hangs
      case Received(a) => Received(if k.AucKind? then Auc(ins, a) else Imb(ins, a))
    else
      match RecvQuote(if k.TraKind? then NO_SIDE else sid, s)
      case Hangs => Hangs
      case Received(q) => Received(if k.TopKind? then Top(ins, q) else if k.LvlKind? then Lvl(ins, q) else Tra(ins, q))
  }

  function RecvQmsg(s: string, msz: nat): Received<Qmsg> {
    match KindOf(s)
    case None => Received(UnknownQmsg)
    case Some(k) =>
      var skip := TagLength(k);
      match FindTab(s, skip, if msz >= skip then msz else |s|)
      case None => Received(UnknownQmsg)
      case Some(eoi) => RecvNamed(k, At(s, 0) as int - 'A' as int, s[skip..eoi], s[eoi + 1..])
  }

  // ----- what is no message -----

  /** A tab at or behind place i, before limit. */
  ghost predicate TabBefore(s: string, i: nat, limit: nat) {
    exists k :: i <= k < limit && k < |s| && s[k] == '\t'
  }

  lemma {:induction false} FindTabFinds(s: string, i: nat, limit: nat)
    ensures FindTab(s, i, limit).Some? <==> TabBefore(s, i, limit)
    decreases limit - i
  {
    if i < limit && i < |s| && s[i] != '\t' {
      FindTabFinds(s, i + 1, limit);
    }
  }

  /** Exactly those messages are unknown that have no instrument or a tag that is
      none of eight. */
  lemma OmsgUnknown(s: string, msz: nat)
    ensures RecvOmsg(s, msz) != Received(UnknownOmsg) <==>
      && TabBefore(s, 4, if msz >= 4 then msz else |s|)
      && (StartsWith(s, "ACC\t") || StartsWith(s, "FIL\t") || StartsWith(s, "KIL\t") || StartsWith(s, "NOK\t")
          || StartsWith(s, "OID\t") || StartsWith(s, "CAN\t") || StartsWith(s, "BUY\t") || StartsWith(s, "SEL\t"))
  {
    FindTabFinds(s, 4, if msz >= 4 then msz else |s|);
    hide StartsWith, RecvOid, RecvBalance, RecvOrder, RecvPair, StrToUl, TabBefore, FindTab;
  }

  /** So it is with quotes: two tags of three characters for either side, three of
      four. */
  lemma QmsgUnknown(s: string, msz: nat)
    ensures RecvQmsg(s, msz) != Received(UnknownQmsg) <==>
      if StartsWith(s, "A1\t") || StartsWith(s, "A2\t") || StartsWith(s, "B1\t") || StartsWith(s, "B2\t") then
        TabBefore(s, 3, if msz >= 3 then msz else |s|)
      else
        && (StartsWith(s, "AUC\t") || StartsWith(s, "IMB\t") || StartsWith(s, "TRA\t"))
        && TabBefore(s, 4, if msz >= 4 then msz else |s|)
  {
    FindTabFinds(s, 3, if msz >= 3 then msz else |s|);
    FindTabFinds(s, 4, if msz >= 4 then msz else |s|);
    ShortTag(s);
    hide RecvNamed, TabBefore, FindTab, StartsWith;
    forall k: Kind, sid: int, ins: string, on: string
      ensures RecvNamed(k, sid, ins, on) != Received(UnknownQmsg)
    {
      NamedIsKnown(k, sid, ins, on);
    }
  }

  lemma NamedIsKnown(k: Kind, sid: int, ins: string, s: string)
    ensures RecvNamed(k, sid, ins, s) != Received(UnknownQmsg)
  {
    hide RecvAuction, RecvQuote;
  }

  lemma ShortTag(s: string)
    ensures StartsWith(s, "A1\t") <==> At(s, 0) == 'A' && At(s, 1) == '1' && At(s, 2) == '\t'
    ensures StartsWith(s, "A2\t") <==> At(s, 0) == 'A' && At(s, 1) == '2' && At(s, 2) == '\t'
    ensures StartsWith(s, "B1\t") <==> At(s, 0) == 'B' && At(s, 1) == '1' && At(s, 2) == '\t'
    ensures StartsWith(s, "B2\t") <==> At(s, 0) == 'B' && At(s, 1) == '2' && At(s, 2) == '\t'
    ensures StartsWith(s, "AUC\t") ==> At(s, 0) == 'A' && At(s, 1) == 'U'
    ensures StartsWith(s, "IMB\t") ==> At(s, 0) == 'I'
    ensures StartsWith(s, "TRA\t") ==> At(s, 0) == 'T'
  {
    if |s| >= 3 {
      assert s[..3] == [s[0], s[1], s[2]];
    }
    if |s| >= 4 {
      assert s[..4] == [s[0], s[1], s[2], s[3]];
    }
  }

  // ----- the same message -----

  /** The number that was sent, or one with its zeros written out. */
  predicate SamePx(p: Px, q: Px) {
    if p.NaN? then q.NaN? else q.Num? && SameNumeral(p.x, q.x)
  }

  predicate Carried(p: Px) {
    p.Num? && Survives(p.x)
  }

  predicate SameOid(o: Oid, p: Oid) {
    p.typ == o.typ && p.sid == o.sid && SamePx(o.prc, p.prc) && p.qid == o.qid
  }

  predicate CarriedOid(o: Oid) {
    IsSide(o.sid) && Carried(o.prc) && o.qid <= MAX
  }

  /** Type, side, displayed quantity, a hidden quantity if there is one, the limit
      price of a limit order. */
  predicate SameOrder(o: Order, p: Order) {
    && p.typ == o.typ && p.sid == o.sid && SamePx(o.dis, p.dis)
    && (if Positive(o.hid) then SamePx(o.hid, p.hid) else p.hid == ZERO)
    && (o.typ.Lmt? ==> SamePx(o.lmt, p.lmt))
    && (o.typ.Mkt? ==> p.slp == NaN)
  }

  predicate CarriedOrder(o: Order) {
    && IsSide(o.sid) && Carried(o.dis) && (Positive(o.hid) ==> Carried(o.hid))
    && (o.typ.Lmt? ==> Carried(o.lmt))
  }

  predicate SameOmsg(m: Omsg, n: Omsg) {
    match m
    case UnknownOmsg => n.UnknownOmsg?
    case Acc(ins, a) => n.Acc? && n.ins == ins && SamePx(a.base, n.exa.base) && SamePx(a.term, n.exa.term)
    case Fil(ins, fid, exe, con) =>
      && n.Fil? && n.ins == ins && SamePx(exe.qty, n.exe.qty) && SamePx(exe.prc, n.exe.prc) && n.con == con
      && (if HasId(fid) then n.fid.Some? && SameOid(fid.value, n.fid.value) else n.fid == None)
    case Kil(ins, o) => n.Kil? && n.ins == ins && SameOid(o, n.oid)
    case Nok(ins, o) => n.Nok? && n.ins == ins && SameOid(o, n.oid)
    case Acked(ins, o) => n.Acked? && n.ins == ins && SameOid(o, n.oid)
    case Can(ins, o) => n.Can? && n.ins == ins && SameOid(o, n.oid)
    case Ord(ins, o) => n.Ord? && n.ins == ins && SameOrder(o, n.ord)
  }

  predicate IsName(ins: string) {
    forall i :: 0 <= i < |ins| ==> ins[i] != '\t' && ins[i] != '\n'
  }

  /** Messages whose numbers the decimal text carries. */
  predicate CarriedOmsg(m: Omsg) {
    !m.UnknownOmsg? && IsName(m.ins) &&
    if m.Acc? then Carried(m.exa.base) && Carried(m.exa.term)
    else if m.Fil? then CarriedFil(m.fid, m.exe, m.con)
    else if m.Ord? then CarriedOrder(m.ord)
    else CarriedOid(m.oid)
  }

  predicate HasId(fid: Option<Oid>) {
    fid.Some? && fid.value.qid != 0
  }

  predicate CarriedFil(fid: Option<Oid>, exe: Exe, con: nat) {
    Carried(exe.qty) && Carried(exe.prc) && con < 0x1_0000_0000 && (HasId(fid) ==> CarriedOid(fid.value))
  }

  // ----- the parts come back -----

  lemma ScanPx(p: Px, rest: string)
    requires Carried(p) && Delimits(rest)
    ensures var r := StrToD(PxText(p) + rest); r.Scan? && r.rest == rest && SamePx(p, Num(r.x))
  {
    hide Survives, Shown, SameNumeral, StrToD;
    StrToDShown(p.x, rest);
  }

  lemma OidComesBack(o: Oid, rest: string)
    requires CarriedOid(o)
    ensures var r := RecvOid(OidText(o) + rest); r.Received? && SameOid(o, r.value)
  {
    hide StrToD, StrToUl, PxText, DecimalText, Carried, SamePx;
    var tail := "\n" + rest;
    var number := " " + (DecimalText(o.qid) + tail);
    OidParts(o, rest);
    DelimitsSpace(DecimalText(o.qid) + tail);
    ScanPx(o.prc, number);
    StrToUlDecimal(o.qid, tail);
    assert number[1..] == DecimalText(o.qid) + tail;
  }

  /** An order id without a price is not recovered: it is taken for no id at all. */
  lemma NanOidLost(o: Oid, rest: string)
    requires IsSide(o.sid) && o.prc.NaN?
    ensures RecvOid(OidText(o) + rest) == Received(NIL_OID)
  {
    OidParts(o, rest);
    var s := From(OidText(o) + rest, 8);
    assert s[0] == 'n';
    hide StrToD, OidText, DecimalText;
    StrToDNone(s);
  }

  lemma DelimitsSpace(s: string)
    ensures Delimits(" " + s) && At(" " + s, 0) == ' '
  {
  }

  lemma OidParts(o: Oid, rest: string)
    requires IsSide(o.sid)
    ensures var s := OidText(o) + rest;
      && From(s, 8) == PxText(o.prc) + (" " + (DecimalText(o.qid) + ("\n" + rest)))
      && At(s, 0) == (if o.typ.Lmt? then 'L' else 'M') && At(s, 4) == (if o.sid == 0 then 'A' else 'B')
  {
    hide PxText, DecimalText;
  }

  lemma TabDelimits(s: string)
    ensures Delimits("\t" + s) && At("\t" + s, 0) == '\t' && ("\t" + s)[1..] == s
  {
  }

  lemma LineDelimits(s: string)
    ensures Delimits("\n" + s) && At("\n" + s, 0) == '\n'
  {
  }

  lemma PairComesBack(p: Px, q: Px, rest: string)
    requires Carried(p) && Carried(q) && Delimits(rest)
    ensures var r := RecvPair(PairText(p, q) + rest);
      && r.Received? && r.value.Some?
      && var (p', q', on) := r.value.value; SamePx(p, p') && SamePx(q, q') && on == rest
  {
    hide StrToD, PxText, Carried, SamePx, Delimits;
    assert PairText(p, q) + rest == PxText(p) + ("\t" + (PxText(q) + rest));
    TabDelimits(PxText(q) + rest);
    ScanPx(p, "\t" + (PxText(q) + rest));
    ScanPx(q, rest);
  }

  /** A price that is no number makes the whole pair unreadable. */
  lemma NanPairComesBack(q: Px, rest: string)
    ensures RecvPair(PairText(NaN, q) + rest) == Received(None)
  {
    var s := PairText(NaN, q) + rest;
    assert s[0] == 'n';
    hide PairText, StrToD;
    StrToDNone(s);
  }

  /** Unless a tab and a second number follow the first, there is no price and no
      quantity; an order is one at the market then, without a hidden quantity if no
      plus follows either. */
  lemma OneNumber(p: Px, rest: string, ins: string, sid: int)
    requires Carried(p) && Delimits(rest) && At(rest, 0) != '\t'
    ensures var s := PxText(p) + rest;
      && RecvBalance(s) == Received(Balance(ZERO, ZERO))
      && RecvFil(ins, s) == Received(Fil(ins, Some(Oid(Lmt, 0, ZERO, 0)), Exe(ZERO, NaN), 0))
      && RecvQuote(sid, s) == Received(Quote(sid, NaN, ZERO))
      && RecvAuction(true, s) == RecvAuction(false, s) == Received(Auction(NaN, ZERO, ZERO))
      && (At(rest, 0) != '+' ==>
        var r := RecvOrder(sid, s); r.Received? && SameOrder(Order(Mkt, sid, p, ZERO, ZERO, NaN), r.value))
  {
    hide StrToD, PxText, Carried, SamePx, Delimits;
    ScanPx(p, rest);
  }

  /** What is no order id: a text that begins otherwise, or whose price is not
      followed by a blank. */
  lemma BrokenOid(s: string, kind: string, p: Px, rest: string)
    requires kind == "LMT ASK " || kind == "LMT BID " || kind == "MKT ASK " || kind == "MKT BID "
    requires Carried(p) && Delimits(rest) && At(rest, 0) != ' '
    ensures At(s, 0) != 'L' && At(s, 0) != 'M' ==> RecvOid(s) == Received(Oid(Lmt, 0, ZERO, 0))
    ensures RecvOid(kind + (PxText(p) + rest)) == Received(Oid(Lmt, 0, ZERO, 0))
  {
    hide StrToD, PxText, Carried, SamePx, Delimits;
    assert From(kind + (PxText(p) + rest), 8) == PxText(p) + rest;
    ScanPx(p, rest);
  }

  lemma BalanceComesBack(a: Balance, rest: string)
    requires Carried(a.base) && Carried(a.term)
    ensures var r := RecvBalance(PairText(a.base, a.term) + "\n" + rest);
      r.Received? && SamePx(a.base, r.value.base) && SamePx(a.term, r.value.term)
  {
    hide RecvPair, PairText, Carried, SamePx, Delimits;
    LineDelimits(rest);
    assert PairText(a.base, a.term) + "\n" + rest == PairText(a.base, a.term) + ("\n" + rest);
    PairComesBack(a.base, a.term, "\n" + rest);
  }

  /** A fill from what its parts are read as. */
  lemma FilFrom(ins: string, s: string, qty: Px, prc: Px, number: string, con: nat, more: string, fid: Option<Oid>)
    requires RecvPair(s) == Received(Some((qty, prc, number)))
    requires StrToUl(number) == (con, more)
    requires if fid.Some? then At(more, 0) == '\t' && RecvOid(more[1..]) == Received(fid.value) else At(more, 0) != '\t'
    ensures RecvFil(ins, s) == Received(Fil(ins, fid, Exe(qty, prc), con % 0x1_0000_0000))
  {
    hide RecvPair, StrToUl, RecvOid;
  }

  function FilMore(fid: Option<Oid>, rest: string): string {
    (if HasId(fid) then "\t" + OidText(fid.value) else "\n") + rest
  }

  function FilNumber(con: nat, more: string): string {
    "\t" + (DecimalText(con) + more)
  }

  lemma FilParts(fid: Option<Oid>, exe: Exe, con: nat, rest: string)
    ensures FilText(fid, exe, con) + rest == PairText(exe.qty, exe.prc) + FilNumber(con, FilMore(fid, rest))
    ensures At(FilMore(fid, rest), 0) == if HasId(fid) then '\t' else '\n'
    ensures HasId(fid) ==> FilMore(fid, rest)[1..] == OidText(fid.value) + rest
    ensures Delimits(FilNumber(con, FilMore(fid, rest)))
  {
    hide PairText, OidText, DecimalText;
  }

  lemma NumberComesBack(con: nat, more: string)
    requires con <= MAX && (At(more, 0) == '\n' || At(more, 0) == '\t')
    ensures StrToUl(FilNumber(con, more)) == (con, more)
  {
    hide StrToUl, DecimalText;
    StrToUlDecimal(con, more);
  }

  lemma FilComesBack(ins: string, fid: Option<Oid>, exe: Exe, con: nat, rest: string)
    requires CarriedFil(fid, exe, con)
    ensures var r := RecvFil(ins, FilText(fid, exe, con) + rest);
      r.Received? && SameOmsg(Fil(ins, fid, exe, con), r.value)
  {
    hide RecvPair, PairText, Carried, SamePx, Delimits, SameOid, CarriedOid, OidText, StrToUl, RecvOid,
      FilText, RecvFil, FilNumber, FilMore;
    var more := FilMore(fid, rest);
    var number := FilNumber(con, more);
    var s := PairText(exe.qty, exe.prc) + number;
    FilParts(fid, exe, con, rest);
    PairComesBack(exe.qty, exe.prc, number);
    NumberComesBack(con, more);
    var pair := RecvPair(s).value.value;
    if HasId(fid) {
      OidComesBack(fid.value, rest);
      FilFrom(ins, s, pair.0, pair.1, number, con, more, Some(RecvOid(more[1..]).value));
    } else {
      FilFrom(ins, s, pair.0, pair.1, number, con, more, None);
    }
  }

  /** Of a counterparty's number the low 32 bits are kept. */
  lemma ConWraps(ins: string, exe: Exe, con: nat, rest: string)
    requires Carried(exe.qty) && Carried(exe.prc) && con <= MAX
    ensures var r := RecvFil(ins, FilText(None, exe, con) + rest);
      r.Received? && r.value.Fil? && r.value.con == con % 0x1_0000_0000
  {
    hide RecvPair, PairText, Carried, SamePx, Delimits, StrToUl, RecvOid, FilText, RecvFil, FilNumber, FilMore;
    var more := FilMore(None, rest);
    var number := FilNumber(con, more);
    FilParts(None, exe, con, rest);
    PairComesBack(exe.qty, exe.prc, number);
    NumberComesBack(con, more);
    var s := PairText(exe.qty, exe.prc) + number;
    var pair := RecvPair(s).value.value;
    FilFrom(ins, s, pair.0, pair.1, number, con, more, None);
  }

  /** An order from what its parts are read as. */
  lemma OrderFrom(sid: int, s: string, dis: Px, hidden: string, hid: Px, limit: string, lmt: Option<Px>)
    requires dis.Num? && StrToD(s) == Scan(dis.x, hidden)
    requires RecvHidden(hidden) == Received((hid, limit))
    requires if lmt.Some? then
      lmt.value.Num? && At(limit, 0) == '\t' && StrToD(limit[1..]).Scan? && StrToD(limit[1..]).x == lmt.value.x
             else At(limit, 0) != '\t'
    ensures RecvOrder(sid, s) == Received(
      if lmt.Some? then Order(Lmt, sid, dis, hid, lmt.value, ZERO) else Order(Mkt, sid, dis, hid, ZERO, NaN))
  {
    hide StrToD, RecvHidden;
  }

  function LimitTail(o: Order, rest: string): string {
    LimitText(o) + ("\n" + rest)
  }

  function HiddenTail(o: Order, rest: string): string {
    HiddenText(o) + LimitTail(o, rest)
  }

  lemma OrderComesBack(o: Order, rest: string)
    requires CarriedOrder(o)
    ensures var r := RecvOrder(o.sid, OrderText(o) + rest); r.Received? && SameOrder(o, r.value)
  {
    hide StrToD, PxText, Carried, SamePx, Delimits, HiddenText, OrderText, RecvHidden, Positive,
      RecvOrder, LimitTail, HiddenTail;
    var limit, hidden := LimitTail(o, rest), HiddenTail(o, rest);
    var s := PxText(o.dis) + hidden;
    OrderParts(o, rest);
    HiddenComesBack(o, rest);
    ScanPx(o.dis, hidden);
    var dis, hid := Num(StrToD(s).x), RecvHidden(hidden).value.0;
    if o.typ.Lmt? {
      LimitComesBack(o, rest);
      OrderFrom(o.sid, s, dis, hidden, hid, limit, Some(Num(StrToD(limit[1..]).x)));
    } else {
      OrderFrom(o.sid, s, dis, hidden, hid, limit, None);
    }
  }

  lemma LimitComesBack(o: Order, rest: string)
    requires o.typ.Lmt? && Carried(o.lmt) && At(LimitTail(o, rest), 0) == '\t'
    ensures LimitTail(o, rest) != ""
    ensures var r := StrToD(LimitTail(o, rest)[1..]); r.Scan? && SamePx(o.lmt, Num(r.x))
  {
    LimitParts(o, rest);
    hide StrToD, PxText, Carried, SamePx, Delimits, LimitText;
    LineDelimits(rest);
    ScanPx(o.lmt, "\n" + rest);
  }

  lemma OrderParts(o: Order, rest: string)
    ensures OrderText(o) + rest == PxText(o.dis) + HiddenTail(o, rest)
    ensures At(LimitTail(o, rest), 0) == (if o.typ.Lmt? then '\t' else '\n')
    ensures Delimits(HiddenTail(o, rest))
  {
    OrderDelimits(o, rest);
    hide PxText, HiddenText, LimitText, Delimits;
    FourParts(PxText(o.dis), HiddenText(o), LimitText(o), "\n", rest);
  }

  lemma LimitParts(o: Order, rest: string)
    requires o.typ.Lmt?
    ensures (LimitText(o) + ("\n" + rest))[1..] == PxText(o.lmt) + ("\n" + rest)
  {
    hide PxText;
  }

  lemma FourParts(a: string, b: string, c: string, d: string, rest: string)
    ensures a + b + c + d + rest == a + (b + (c + (d + rest)))
  {
  }

  lemma OrderDelimits(o: Order, rest: string)
    ensures var limit := LimitText(o) + ("\n" + rest);
      && Delimits(limit) && At(limit, 0) == (if o.typ.Lmt? then '\t' else '\n')
      && Delimits(HiddenText(o) + limit)
  {
    hide PxText, Positive;
  }

  lemma HiddenComesBack(o: Order, rest: string)
    requires Positive(o.hid) ==> Carried(o.hid)
    ensures var r := RecvHidden(HiddenTail(o, rest));
      && r.Received? && r.value.1 == LimitTail(o, rest)
      && (if Positive(o.hid) then SamePx(o.hid, r.value.0) else r.value.0 == ZERO)
  {
    OrderDelimits(o, rest);
    hide StrToD, PxText, Carried, SamePx, Delimits, Positive;
    var limit := LimitTail(o, rest);
    if Positive(o.hid) {
      assert (HiddenText(o) + limit)[1..] == PxText(o.hid) + limit;
      ScanPx(o.hid, limit);
    } else {
      assert HiddenText(o) + limit == limit;
    }
  }

  // ----- whole messages -----

  lemma {:induction false} FindTabIs(s: string, i: nat, e: nat, limit: nat)
    requires i <= e < |s| && e < limit && s[e] == '\t' && forall k :: i <= k < e ==> s[k] != '\t'
    ensures FindTab(s, i, limit) == Some(e)
    decreases e - i
  {
    if i < e {
      FindTabIs(s, i + 1, e, limit);
    }
  }

  /** Tag, instrument and body are told apart. */
  lemma FramedParts(tag: string, ins: string, body: string, rest: string, limit: nat)
    requires IsName(ins) && |tag| + |ins| < limit
    ensures var s := Framed(tag, ins, body) + rest;
      && FindTab(s, |tag|, limit) == Some(|tag| + |ins|)
      && s[|tag|..|tag| + |ins|] == ins && s[|tag| + |ins| + 1..] == body + rest
      && StartsWith(s, tag) && |s| > |tag| + |ins|
  {
    var s := Framed(tag, ins, body) + rest;
    assert s == tag + (ins + ("\t" + (body + rest)));
    assert forall k :: |tag| <= k < |tag| + |ins| ==> s[k] == ins[k - |tag|];
    FindTabIs(s, |tag|, |tag| + |ins|, limit);
  }

  /** A message other than an order goes by its tag. */
  lemma TagTells(s: string, tag: string)
    requires |tag| == 4 && StartsWith(s, tag)
    ensures forall t: string {:trigger StartsWith(s, t)} :: |t| == 4 ==> (StartsWith(s, t) <==> t == tag)
    ensures At(s, 0) == tag[0]
  {
  }

  lemma FieldsComeBack(m: Omsg, s: string, rest: string)
    requires CarriedOmsg(m) && StartsWith(s, Tag(m))
    ensures var r := RecvFields(s, m.ins, Body(m) + rest); r.Received? && SameOmsg(m, r.value)
  {
    hide RecvOid, RecvBalance, RecvFil, RecvOrder, OidText, FilText, OrderText, PairText, CarriedOid, CarriedOrder,
      SameOid, SameOrder, SamePx, Carried, IsName, StartsWith;
    TagTells(s, Tag(m));
    if m.Acc? {
      BalanceComesBack(m.exa, rest);
    } else if m.Fil? {
      FilComesBack(m.ins, m.fid, m.exe, m.con, rest);
    } else if m.Ord? {
      SideOf(m.ord);
      OrderComesBack(m.ord, rest);
    } else {
      OidComesBack(m.oid, rest);
    }
  }

  lemma SideOf(o: Order)
    requires CarriedOrder(o)
    ensures IsSide(o.sid)
  {
  }

  /** Receiving what was sent gives the same message back, field by field, whatever
      follows it in the buffer and however much of that the caller counts in. */
  lemma OmsgComesBack(m: Omsg, rest: string, msz: nat)
    requires CarriedOmsg(m) && msz >= |Wire(m)| - 1
    ensures var r := RecvOmsg(Wire(m) + rest, msz); r.Received? && SameOmsg(m, r.value)
  {
    var s := Wire(m) + rest;
    BodyNotEmpty(m);
    hide Body, RecvFields, SameOmsg, FindTab;
    FramedParts(Tag(m), m.ins, Body(m), rest, if msz >= 4 then msz else |s|);
    FieldsComeBack(m, s, rest);
  }

  lemma BodyNotEmpty(m: Omsg)
    requires CarriedOmsg(m)
    ensures |Body(m)| > 1 && |Tag(m)| == 4
  {
    hide DecimalText, CarriedOid, CarriedOrder, Carried, IsName;
    if m.Acc? {
      PxNotEmpty(m.exa.base);
    } else if m.Fil? {
      PxNotEmpty(m.exe.qty);
    } else if m.Ord? {
      PxNotEmpty(m.ord.dis);
    }
  }

  lemma PxNotEmpty(p: Px)
    ensures |PxText(p)| > 0
  {
  }

  // ----- quotes -----

  predicate CarriedQmsg(m: Qmsg) {
    && !m.UnknownQmsg? && IsName(m.ins) && Carried(QPair(m).0) && Carried(QPair(m).1)
    && (m.Top? || m.Lvl? ==> IsSide(m.quo.sid))
  }

  predicate SameQuote(q: Quote, r: Quote) {
    r.sid == q.sid && SamePx(q.prc, r.prc) && SamePx(q.qty, r.qty)
  }

  /** The fields that are sent come back; a trade has no side, an auction message
      only one of its two quantities. */
  predicate SameQmsg(m: Qmsg, n: Qmsg) {
    match m
    case UnknownQmsg => n.UnknownQmsg?
    case Top(ins, q) => n.Top? && n.ins == ins && SameQuote(q, n.quo)
    case Lvl(ins, q) => n.Lvl? && n.ins == ins && SameQuote(q, n.quo)
    case Tra(ins, q) => n.Tra? && n.ins == ins && SameQuote(q.(sid := NO_SIDE), n.quo)
    case Auc(ins, a) =>
      n.Auc? && n.ins == ins && SamePx(a.prc, n.auc.prc) && SamePx(a.qty, n.auc.qty) && n.auc.imb == ZERO
    case Imb(ins, a) =>
      n.Imb? && n.ins == ins && SamePx(a.prc, n.auc.prc) && SamePx(a.imb, n.auc.imb) && n.auc.qty == ZERO
  }

  /** The message of m's kind with these two numbers. */
  function QmsgWith(m: Qmsg, p: Px, q: Px): Qmsg
    requires !m.UnknownQmsg?
  {
    match m
    case Top(ins, u) => Top(ins, Quote(u.sid, p, q))
    case Lvl(ins, u) => Lvl(ins, Quote(u.sid, p, q))
    case Tra(ins, _) => Tra(ins, Quote(NO_SIDE, p, q))
    case Auc(ins, _) => Auc(ins, Auction(p, q, ZERO))
    case Imb(ins, _) => Imb(ins, Auction(p, ZERO, q))
  }

  predicate HasSide(m: Qmsg) {
    m.Top? || m.Lvl? ==> IsSide(m.quo.sid)
  }

  function QKind(m: Qmsg): Kind
    requires !m.UnknownQmsg?
  {
    if m.Top? then TopKind else if m.Lvl? then LvlKind else if m.Tra? then TraKind
    else if m.Auc? then AucKind else ImbKind
  }

  lemma QTagTells(m: Qmsg, s: string)
    requires !m.UnknownQmsg? && HasSide(m) && StartsWith(s, QTag(m))
    ensures KindOf(s) == Some(QKind(m)) && TagLength(QKind(m)) == |QTag(m)|
    ensures m.Top? || m.Lvl? ==> At(s, 0) as int - 'A' as int == m.quo.sid
  {
    var t := QTag(m);
    assert forall i :: 0 <= i < |t| ==> s[i] == t[i];
    if StartsWith(s, "AUC\t") {
      assert s[0] == 'A' && s[1] == 'U';
    }
    if StartsWith(s, "IMB\t") {
      assert s[0] == 'I';
    }
    if StartsWith(s, "TRA\t") {
      assert s[0] == 'T';
    }
  }

  /** A quote message from what its numbers are read as; without readable numbers
      it has no price and quantity zero. */
  lemma NamedFrom(m: Qmsg, sid: int, body: string)
    requires !m.UnknownQmsg? && (m.Top? || m.Lvl? ==> sid == m.quo.sid) && RecvPair(body).Received?
    ensures var r := RecvPair(body).value;
      RecvNamed(QKind(m), sid, m.ins, body)
      == Received(QmsgWith(m, if r.Some? then r.value.0 else NaN, if r.Some? then r.value.1 else ZERO))
  {
    hide RecvPair;
  }

  lemma QmsgFrom(s: string, msz: nat, k: Kind, skip: nat, e: nat, ins: string, body: string)
    requires KindOf(s) == Some(k) && TagLength(k) == skip <= msz && skip <= e < |s|
    requires FindTab(s, skip, msz) == Some(e) && s[skip..e] == ins && s[e + 1..] == body
    ensures RecvQmsg(s, msz) == RecvNamed(k, At(s, 0) as int - 'A' as int, ins, body)
  {
    hide FindTab, KindOf, RecvNamed, TagLength;
  }

  lemma QReceived(m: Qmsg, rest: string, msz: nat) returns (sid: int)
    requires !m.UnknownQmsg? && HasSide(m) && IsName(m.ins) && msz > |QTag(m)| + |m.ins|
    ensures m.Top? || m.Lvl? ==> sid == m.quo.sid
    ensures RecvQmsg(QWire(m) + rest, msz) == RecvNamed(QKind(m), sid, m.ins, QBody(m) + rest)
  {
    assert QWire(m) == Framed(QTag(m), m.ins, QBody(m));
    hide *;
    var s, n := QWire(m) + rest, |QTag(m)|;
    FramedParts(QTag(m), m.ins, QBody(m), rest, msz);
    QTagTells(m, s);
    QmsgFrom(s, msz, QKind(m), n, n + |m.ins|, m.ins, QBody(m) + rest);
    sid := At(s, 0) as int - 'A' as int;
  }

  lemma QWireLong(m: Qmsg)
    requires !m.UnknownQmsg?
    ensures |QWire(m)| - 1 > |QTag(m)| + |m.ins|
  {
    QBodyNotEmpty(m);
    hide QBody, QTag;
  }

  lemma QmsgComesBack(m: Qmsg, rest: string, msz: nat)
    requires CarriedQmsg(m) && msz >= |QWire(m)| - 1
    ensures var r := RecvQmsg(QWire(m) + rest, msz); r.Received? && SameQmsg(m, r.value)
  {
    hide QWire, QTag, RecvQmsg, RecvNamed, QKind, QBody, RecvPair, Carried, SamePx, IsName;
    assert HasSide(m);
    QWireLong(m);
    var sid := QReceived(m, rest, msz);
    QPairComesBack(m, rest);
    NamedFrom(m, sid, QBody(m) + rest);
  }

  lemma QPairComesBack(m: Qmsg, rest: string)
    requires CarriedQmsg(m)
    ensures var r := RecvPair(QBody(m) + rest);
      && r.Received? && r.value.Some?
      && SamePx(QPair(m).0, r.value.value.0) && SamePx(QPair(m).1, r.value.value.1)
  {
    var (p, q) := QPair(m);
    hide RecvPair, PairText, Carried, SamePx, IsName, Delimits;
    LineDelimits(rest);
    assert QBody(m) + rest == PairText(p, q) + ("\n" + rest);
    PairComesBack(p, q, "\n" + rest);
  }

  lemma QBodyNotEmpty(m: Qmsg)
    requires !m.UnknownQmsg?
    ensures |QBody(m)| > 1
  {
    PxNotEmpty(QPair(m).0);
    hide PxText;
  }

  /** An empty book is sent as a price that is no number and quantity zero; the
      receiver takes the branch for unreadable messages, which gives just that. */
  lemma EmptyBookComesBack(isTop: bool, ins: string, sid: int, rest: string, msz: nat)
    requires IsName(ins) && IsSide(sid)
    requires var q := Quote(sid, NaN, ZERO); msz >= |QWire(if isTop then Top(ins, q) else Lvl(ins, q))| - 1
    ensures var q := Quote(sid, NaN, ZERO);
      var m := if isTop then Top(ins, q) else Lvl(ins, q);
      RecvQmsg(QWire(m) + rest, msz) == Received(m)
  {
    var q := Quote(sid, NaN, ZERO);
    var m := if isTop then Top(ins, q) else Lvl(ins, q);
    NanBody(m, rest);
    hide QWire, QTag, RecvQmsg, RecvNamed, QKind, QBody, RecvPair, IsName;
    QWireLong(m);
    var sid' := QReceived(m, rest, msz);
    NamedFrom(m, sid', QBody(m) + rest);
  }

  lemma NanBody(m: Qmsg, rest: string)
    requires !m.UnknownQmsg? && QPair(m).0.NaN?
    ensures RecvPair(QBody(m) + rest) == Received(None)
  {
    hide RecvPair, PairText;
    assert QBody(m) + rest == PairText(NaN, QPair(m).1) + ("\n" + rest);
    NanPairComesBack(QPair(m).1, "\n" + rest);
  }
}
