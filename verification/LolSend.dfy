/** Writing messages into a buffer. */
module LolSend {
  import opened Decimal
  import opened Decimal64
  import opened Coding64
  import opened Strings64
  import opened Fields
  import opened Lol

  /** What is in the buffer up to len: what was there before, then the text so far. */
  ghost predicate Holds(buf: array<char>, len: nat, before: string, text: string)
    reads buf
  {
    len <= buf.Length && buf[..len] == before + text
  }

  /** Copies a piece of text behind what is there. */
  method Put(buf: array<char>, at: nat, s: string, ghost before: string, ghost text: string) returns (len: nat)
    requires Holds(buf, at, before, text) && at + |s| <= buf.Length
    modifies buf
    ensures Holds(buf, len, before, text + s) && len == at + |s|
  {
    ghost var was := buf[..at];
    forall i | 0 <= i < |s| {
      buf[at + i] := s[i];
    }
    len := at + |s|;
    assert buf[..len] == was + s;
    assert before + text + s == before + (text + s);
  }

  /** Numbers that the printer can be given. */
  predicate Printable(p: Px) {
    p.NaN? || (IsD64(p.x) && p.x != Finite(false, 0, -BIAS))
  }

  method PutPx(buf: array<char>, at: nat, p: Px, ghost before: string, ghost text: string) returns (len: nat)
    requires Holds(buf, at, before, text) && at + |PxText(p)| <= buf.Length && Printable(p)
    modifies buf
    ensures Holds(buf, len, before, text + PxText(p)) && len == at + |PxText(p)|
  {
    hide Shown, DecodeBid, EncodeBid;
    if p.NaN? {
      len := Put(buf, at, "nan", before, text);
    } else {
      BidRoundTrip(p.x);
      ghost var was := buf[..at];
      var n := BidToStr(buf, at, EncodeBid(p.x));
      len := at + n;
      assert buf[..len] == was + buf[at..len];
      assert before + text + PxText(p) == before + (text + PxText(p));
    }
  }

  method SendOid(buf: array<char>, at: nat, oid: Oid, ghost before: string) returns (len: nat)
    requires Holds(buf, at, before, "") && IsSide(oid.sid) && Printable(oid.prc)
    requires at + |OidText(oid)| <= buf.Length
    modifies buf
    ensures Holds(buf, len, before, OidText(oid)) && len == at + |OidText(oid)|
  {
    hide PxText, DecimalText, Printable, Holds;
    var typ := if oid.typ.Lmt? then "LMT " else "MKT ";
    var sid := if oid.sid == 0 then "ASK " else "BID ";
    len := Put(buf, at, typ, before, "");
    assert "" + typ == typ;
    len := Put(buf, len, sid, before, typ);
    len := PutPx(buf, len, oid.prc, before, typ + sid);
    len := Put(buf, len, " ", before, typ + sid + PxText(oid.prc));
    len := Put(buf, len, DecimalText(oid.qid), before, typ + sid + PxText(oid.prc) + " ");
    len := Put(buf, len, "\n", before, typ + sid + PxText(oid.prc) + " " + DecimalText(oid.qid));
  }

  method SendOrd(buf: array<char>, at: nat, o: Order, ghost before: string) returns (len: nat)
    requires Holds(buf, at, before, "")
    requires Printable(o.dis) && Printable(o.hid) && Printable(o.lmt)
    requires at + |OrderText(o)| <= buf.Length
    modifies buf
    ensures Holds(buf, len, before, OrderText(o)) && len == at + |OrderText(o)|
  {
    hide PxText, Printable, Holds, Positive;
    ghost var text := PxText(o.dis);
    len := PutPx(buf, at, o.dis, before, "");
    assert "" + PxText(o.dis) == PxText(o.dis);
    if Positive(o.hid) {
      len := Put(buf, len, "+", before, text);
      len := PutPx(buf, len, o.hid, before, text + "+");
      assert text + "+" + PxText(o.hid) == text + HiddenText(o);
    } else {
      assert text + HiddenText(o) == text;
    }
    text := text + HiddenText(o);
    if o.typ.Lmt? {
      len := Put(buf, len, "\t", before, text);
      len := PutPx(buf, len, o.lmt, before, text + "\t");
      assert text + "\t" + PxText(o.lmt) == text + LimitText(o);
    } else {
      assert text + LimitText(o) == text;
    }
    text := text + LimitText(o);
    len := Put(buf, len, "\n", before, text);
  }

  method SendPair(buf: array<char>, at: nat, p: Px, q: Px, ghost before: string) returns (len: nat)
    requires Holds(buf, at, before, "") && Printable(p) && Printable(q)
    requires at + |PairText(p, q)| <= buf.Length
    modifies buf
    ensures Holds(buf, len, before, PairText(p, q)) && len == at + |PairText(p, q)|
  {
    hide PxText, Printable, Holds;
    len := PutPx(buf, at, p, before, "");
    assert "" + PxText(p) == PxText(p);
    len := Put(buf, len, "\t", before, PxText(p));
    len := PutPx(buf, len, q, before, PxText(p) + "\t");
  }

  lemma Again(buf: array<char>, len: nat, before: string, text: string)
    requires Holds(buf, len, before, text)
    ensures Holds(buf, len, before + text, "")
  {
    assert before + text + "" == before + text;
  }

  lemma Back(buf: array<char>, len: nat, before: string, text: string, more: string)
    requires Holds(buf, len, before + text, more)
    ensures Holds(buf, len, before, text + more)
  {
    assert before + text + more == before + (text + more);
  }

  /** A fill: the end of line is written first and turned into a tab if an order id
      follows. */
  method SendFil(buf: array<char>, at: nat, fid: Option<Oid>, exe: Exe, con: nat, ghost before: string)
      returns (len: nat)
    requires Holds(buf, at, before, "") && Printable(exe.qty) && Printable(exe.prc)
    requires HasId(fid) ==> IsSide(fid.value.sid) && Printable(fid.value.prc)
    requires at + |FilText(fid, exe, con)| <= buf.Length
    modifies buf
    ensures Holds(buf, len, before, FilText(fid, exe, con)) && len == at + |FilText(fid, exe, con)|
  {
    hide PairText, Printable, DecimalText, OidText;
    ghost var text := PairText(exe.qty, exe.prc);
    len := SendPair(buf, at, exe.qty, exe.prc, before);
    len := Put(buf, len, "\t", before, text);
    len := Put(buf, len, DecimalText(con), before, text + "\t");
    text := text + "\t" + DecimalText(con);
    ghost var was := buf[..len];
    len := Put(buf, len, "\n", before, text);
    if HasId(fid) {
      assert buf[..len - 1] == was by { assert buf[..len][..len - 1] == buf[..len - 1]; }
      buf[len - 1] := '\t';
      assert buf[..len] == was + "\t";
      assert before + text + "\t" == before + (text + "\t");
      Again(buf, len, before, text + "\t");
      len := SendOid(buf, len, fid.value, before + (text + "\t"));
      Back(buf, len, before, text + "\t", OidText(fid.value));
      assert text + "\t" + OidText(fid.value) == text + ("\t" + OidText(fid.value));
    }
  }

  predicate PrintableOmsg(m: Omsg) {
    match m
    case UnknownOmsg => true
    case Acc(_, a) => Printable(a.base) && Printable(a.term)
    case Fil(_, fid, exe, _) => PrintableFil(fid, exe)
    case Ord(_, o) => IsSide(o.sid) && Printable(o.dis) && Printable(o.hid) && Printable(o.lmt)
    case Kil(_, o) => IsSide(o.sid) && Printable(o.prc)
    case Nok(_, o) => IsSide(o.sid) && Printable(o.prc)
    case Acked(_, o) => IsSide(o.sid) && Printable(o.prc)
    case Can(_, o) => IsSide(o.sid) && Printable(o.prc)
  }

  predicate PrintableFil(fid: Option<Oid>, exe: Exe) {
    Printable(exe.qty) && Printable(exe.prc) && (HasId(fid) ==> IsSide(fid.value.sid) && Printable(fid.value.prc))
  }

  method SendBody(buf: array<char>, at: nat, m: Omsg, ghost before: string) returns (len: nat)
    requires !m.UnknownOmsg? && PrintableOmsg(m) && Holds(buf, at, before, "") && at + |Body(m)| <= buf.Length
    modifies buf
    ensures Holds(buf, len, before, Body(m)) && len == at + |Body(m)|
  {
    hide PairText, Printable, OidText, OrderText, FilText, Holds;
    if m.Acc? {
      len := SendPair(buf, at, m.exa.base, m.exa.term, before);
      len := Put(buf, len, "\n", before, PairText(m.exa.base, m.exa.term));
    } else if m.Fil? {
      len := SendFil(buf, at, m.fid, m.exe, m.con, before);
    } else if m.Ord? {
      len := SendOrd(buf, at, m.ord, before);
    } else {
      len := SendOid(buf, at, m.oid, before);
    }
  }

  method SendHeader(buf: array<char>, tag: string, ins: string) returns (len: nat)
    requires |tag| + |ins| < buf.Length
    modifies buf
    ensures Holds(buf, len, tag + ins + "\t", "") && len == |tag| + |ins| + 1
  {
    assert buf[..0] == "" + "";
    len := Put(buf, 0, tag, "", "");
    len := Put(buf, len, ins, "", "" + tag);
    len := Put(buf, len, "\t", "", "" + tag + ins);
    assert "" + ("" + tag + ins + "\t") == tag + ins + "\t" + "";
  }

  /** Writes a message; -1 for one that cannot be sent.  An order is announced as
      such first and then given the tag of its side. */
  method SendOmsg(buf: array<char>, m: Omsg) returns (n: int)
    requires PrintableOmsg(m)
    requires if m.UnknownOmsg? then 5 <= buf.Length else |Wire(m)| <= buf.Length
    modifies buf
    ensures m.UnknownOmsg? ==> n == -1
    ensures !m.UnknownOmsg? ==> n == |Wire(m)| && buf[..n] == Wire(m)
  {
    hide Body, PrintableOmsg;
    if m.UnknownOmsg? {
      var len := SendHeader(buf, "UNK\t", "");
      return -1;
    }
    var len := SendHeader(buf, if m.Ord? then "ORD\t" else Tag(m), m.ins);
    if m.Ord? {
      ghost var was := buf[..len];
      var tag := Tag(m);
      forall i | 0 <= i < 4 {
        buf[i] := tag[i];
      }
      assert buf[..len] == tag + was[4..];
      assert was[4..] == m.ins + "\t";
      assert tag + (m.ins + "\t") == tag + m.ins + "\t" + "";
    }
    len := SendBody(buf, len, m, Tag(m) + m.ins + "\t");
    n := len;
  }

  predicate PrintableQmsg(m: Qmsg) {
    !m.UnknownQmsg? ==> Printable(QPair(m).0) && Printable(QPair(m).1)
  }

  /** Writes a quote message; nothing, if there is no telling whose quote it is. */
  method SendQmsg(buf: array<char>, m: Qmsg) returns (n: nat)
    requires PrintableQmsg(m) && (!m.UnknownQmsg? ==> |QWire(m)| <= buf.Length)
    modifies buf
    ensures m.UnknownQmsg? || !HasSide(m) ==> n == 0 && buf[..] == old(buf[..])
    ensures !m.UnknownQmsg? && HasSide(m) ==> n == |QWire(m)| && buf[..n] == QWire(m)
  {
    if m.UnknownQmsg? || ((m.Top? || m.Lvl?) && m.quo.sid != 0 && m.quo.sid != 1) {
      return 0;
    }
    hide Printable, PairText;
    ghost var head := QTag(m) + m.ins + "\t";
    var len := SendHeader(buf, QTag(m), m.ins);
    var (p, q) := QPair(m);
    len := SendPair(buf, len, p, q, head);
    len := Put(buf, len, "\n", head, PairText(p, q));
    n := len;
  }
}
