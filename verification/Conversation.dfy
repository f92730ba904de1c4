/** Messages over a connection: written, cut anywhere, put together, read. */
module Conversation {
  import opened Printing
  import opened Fields
  import opened Lol
  import opened Lines

  /** No end of line inside. */
  predicate Clean(s: string) {
    forall i :: 0 <= i < |s| ==> s[i] != '\n'
  }

  lemma CleanConcat(s: string, t: string)
    requires Clean(s) && Clean(t)
    ensures Clean(s + t)
  {
  }

  lemma CleanPx(p: Px)
    ensures Clean(PxText(p))
  {
    if p.Num? {
      CleanShown(p.x.neg && p.x.coef != 0, p.x.coef % 1_0000_0000_0000_0000, p.x.expo);
    }
  }

  lemma CleanShown(neg: bool, m: nat, e: int)
    ensures Clean(Text(neg, m, e))
  {
    var k := if e < 0 then -e else 0;
    var q := Shifted(m, k);
    var whole, tail := if q == 0 then "0" else Whole(q), if e < 0 then "." + Low(m, k) else Zeros(e);
    assert Clean(whole) && Clean(tail);
    hide Clean, Whole, Low, Zeros, Shifted;
    CleanSign(neg);
    CleanConcat(if neg then "-" else "", whole);
    CleanConcat((if neg then "-" else "") + whole, tail);
  }

  lemma CleanSign(neg: bool)
    ensures Clean(if neg then "-" else "")
  {
  }

  lemma CleanDecimal(n: nat)
    ensures Clean(DecimalText(n))
  {
  }

  lemma LineOf(s: string)
    requires Clean(s)
    ensures IsLine(s + "\n")
  {
  }

  lemma OidLine(o: Oid)
    ensures IsLine(OidText(o))
  {
    CleanPx(o.prc);
    CleanDecimal(o.qid);
    var head := (if o.typ.Lmt? then "LMT " else "MKT ") + if o.sid == 0 then "ASK " else "BID ";
    assert Clean(head) && Clean(" ");
    hide Clean, PxText, DecimalText, IsLine;
    CleanConcat(head, PxText(o.prc));
    CleanConcat(head + PxText(o.prc), " ");
    CleanConcat(head + PxText(o.prc) + " ", DecimalText(o.qid));
    LineOf(head + PxText(o.prc) + " " + DecimalText(o.qid));
  }

  lemma CleanPair(p: Px, q: Px)
    ensures Clean(PairText(p, q))
  {
    CleanPx(p);
    CleanPx(q);
    assert Clean("\t");
    hide Clean, PxText;
    CleanConcat(PxText(p), "\t");
    CleanConcat(PxText(p) + "\t", PxText(q));
  }

  lemma OrderLine(o: Order)
    ensures IsLine(OrderText(o))
  {
    CleanPx(o.dis);
    CleanPx(o.hid);
    CleanPx(o.lmt);
    assert Clean("+") && Clean("\t") && Clean("");
    hide Clean, PxText, Positive, IsLine;
    CleanConcat("+", PxText(o.hid));
    CleanConcat("\t", PxText(o.lmt));
    hide HiddenText, LimitText;
    CleanTails(o);
    CleanConcat(PxText(o.dis), HiddenText(o));
    CleanConcat(PxText(o.dis) + HiddenText(o), LimitText(o));
    LineOf(PxText(o.dis) + HiddenText(o) + LimitText(o));
  }

  lemma CleanTails(o: Order)
    requires Clean("+" + PxText(o.hid)) && Clean("\t" + PxText(o.lmt))
    ensures Clean(HiddenText(o)) && Clean(LimitText(o))
  {
  }

  lemma LineBehind(s: string, line: string)
    requires Clean(s) && IsLine(line)
    ensures IsLine(s + line)
  {
  }

  lemma FilLine(fid: Option<Oid>, exe: Exe, con: nat)
    ensures IsLine(FilText(fid, exe, con))
  {
    CleanPair(exe.qty, exe.prc);
    CleanDecimal(con);
    assert Clean("\t") && IsLine("\n");
    var head := PairText(exe.qty, exe.prc) + "\t" + DecimalText(con);
    hide Clean, PairText, DecimalText, OidText, IsLine;
    CleanConcat(PairText(exe.qty, exe.prc), "\t");
    CleanConcat(PairText(exe.qty, exe.prc) + "\t", DecimalText(con));
    if HasId(fid) {
      OidLine(fid.value);
      LineBehind("\t", OidText(fid.value));
      LineBehind(head, "\t" + OidText(fid.value));
    } else {
      LineBehind(head, "\n");
    }
  }

  lemma BodyLine(m: Omsg)
    requires !m.UnknownOmsg?
    ensures IsLine(Body(m))
  {
    hide OidText, OrderText, FilText, PairText, IsLine, Clean;
    if m.Acc? {
      CleanPair(m.exa.base, m.exa.term);
      LineOf(PairText(m.exa.base, m.exa.term));
    } else if m.Fil? {
      FilLine(m.fid, m.exe, m.con);
    } else if m.Ord? {
      OrderLine(m.ord);
    } else {
      OidLine(m.oid);
    }
  }

  /** A message is one line. */
  lemma WireLine(m: Omsg)
    requires !m.UnknownOmsg? && IsName(m.ins)
    ensures IsLine(Wire(m))
  {
    BodyLine(m);
    CleanTag(m);
    hide Body, IsLine, Clean, Tag, IsName;
    CleanHead(Tag(m), m.ins);
    LineBehind(Tag(m) + m.ins + "\t", Body(m));
  }

  lemma CleanTag(m: Omsg)
    ensures Clean(Tag(m))
  {
  }

  lemma CleanHead(tag: string, ins: string)
    requires IsName(ins) && Clean(tag)
    ensures Clean(tag + ins + "\t")
  {
  }

  function Wires(ms: seq<Omsg>): (lines: seq<string>)
    requires forall i :: 0 <= i < |ms| ==> !ms[i].UnknownOmsg?
    ensures |lines| == |ms| && forall i :: 0 <= i < |ms| ==> lines[i] == Wire(ms[i])
    decreases |ms|
  {
    if |ms| == 0 then [] else [Wire(ms[0])] + Wires(ms[1..])
  }

  lemma {:induction false} SplitWires(lines: seq<string>)
    requires forall i :: 0 <= i < |lines| ==> IsLine(lines[i])
    ensures SplitLines(Concat(lines)) == Split(lines, "")
    decreases |lines|
  {
    if lines != [] {
      SplitWires(lines[1..]);
      SplitFirst(lines[0], Concat(lines[1..]));
      assert [lines[0]] + lines[1..] == lines;
    }
  }

  /** Any number of messages, written one after the other and cut into reads in any
      way, are handed over one by one, and each is received as what was sent,
      whatever stands behind it in the buffer. */
  lemma ConversationComesThrough(ms: seq<Omsg>, chunks: seq<string>)
    requires forall i :: 0 <= i < |ms| ==> !ms[i].UnknownOmsg? && CarriedOmsg(ms[i])
    requires Concat(chunks) == Concat(Wires(ms))
    ensures AfterChunks(Split([], ""), chunks) == Split(Wires(ms), "")
    ensures forall i, rest :: 0 <= i < |ms| ==>
      var r := RecvOmsg(Wires(ms)[i] + rest, |Wires(ms)[i]|); r.Received? && SameOmsg(ms[i], r.value)
  {
    hide CarriedOmsg, Wire, SplitLines, RecvOmsg, SameOmsg;
    forall i | 0 <= i < |ms| ensures IsLine(Wires(ms)[i]) {
      CarriedIsSendable(ms[i]);
      WireLine(ms[i]);
    }
    SplitWires(Wires(ms));
    CutsDoNotMatter(chunks, chunks);
    forall i, rest | 0 <= i < |ms|
      ensures var r := RecvOmsg(Wires(ms)[i] + rest, |Wires(ms)[i]|); r.Received? && SameOmsg(ms[i], r.value)
    {
      OmsgComesBack(ms[i], rest, |Wires(ms)[i]|);
    }
  }

  lemma CarriedIsSendable(m: Omsg)
    requires CarriedOmsg(m)
    ensures !m.UnknownOmsg? && IsName(m.ins)
  {
  }

  // ----- quotes -----

  /** A quote message is one line. */
  lemma QWireLine(m: Qmsg)
    requires !m.UnknownQmsg? && IsName(m.ins)
    ensures IsLine(QWire(m))
  {
    var (p, q) := QPair(m);
    CleanPair(p, q);
    CleanQTag(m);
    hide PairText, IsLine, Clean, QTag, IsName;
    LineOf(PairText(p, q));
    CleanHead(QTag(m), m.ins);
    LineBehind(QTag(m) + m.ins + "\t", QBody(m));
  }

  lemma CleanQTag(m: Qmsg)
    requires !m.UnknownQmsg?
    ensures Clean(QTag(m))
  {
  }

  function QWires(ms: seq<Qmsg>): (lines: seq<string>)
    requires forall i :: 0 <= i < |ms| ==> !ms[i].UnknownQmsg?
    ensures |lines| == |ms| && forall i :: 0 <= i < |ms| ==> lines[i] == QWire(ms[i])
    decreases |ms|
  {
    if |ms| == 0 then [] else [QWire(ms[0])] + QWires(ms[1..])
  }

  /** The same for quotes. */
  lemma QuotesComeThrough(ms: seq<Qmsg>, chunks: seq<string>)
    requires forall i :: 0 <= i < |ms| ==> !ms[i].UnknownQmsg? && CarriedQmsg(ms[i])
    requires Concat(chunks) == Concat(QWires(ms))
    ensures AfterChunks(Split([], ""), chunks) == Split(QWires(ms), "")
    ensures forall i, rest :: 0 <= i < |ms| ==>
      var r := RecvQmsg(QWires(ms)[i] + rest, |QWires(ms)[i]|); r.Received? && SameQmsg(ms[i], r.value)
  {
    hide CarriedQmsg, QWire, SplitLines, RecvQmsg, SameQmsg;
    forall i | 0 <= i < |ms| ensures IsLine(QWires(ms)[i]) {
      CarriedHasName(ms[i]);
      QWireLine(ms[i]);
    }
    SplitWires(QWires(ms));
    CutsDoNotMatter(chunks, chunks);
    forall i, rest | 0 <= i < |ms|
      ensures var r := RecvQmsg(QWires(ms)[i] + rest, |QWires(ms)[i]|); r.Received? && SameQmsg(ms[i], r.value)
    {
      QmsgComesBack(ms[i], rest, |QWires(ms)[i]|);
    }
  }

  lemma CarriedHasName(m: Qmsg)
    requires CarriedQmsg(m)
    ensures IsName(m.ins)
  {
  }
}
