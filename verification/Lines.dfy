/** Putting lines back together from the pieces a connection delivers. */
module Lines {

  /** Whole lines, each with its newline, and what stands behind the last one. */
  datatype Split = Split(lines: seq<string>, rest: string)

  const NEWLINE := '\n'

  /** The text up to and including the first newline from i on; its end. */
  function LineEnd(s: string, i: nat): (e: nat)
    requires i <= |s|
    ensures i <= e <= |s|
    ensures e < |s| ==> s[e] == NEWLINE
    ensures forall k :: i <= k < e ==> s[k] != NEWLINE
    decreases |s| - i
  {
    if i == |s| || s[i] == NEWLINE then i else LineEnd(s, i + 1)
  }

  function SplitLines(s: string): Split
    decreases |s|
  {
    var e := LineEnd(s, 0);
    if e == |s| then Split([], s) else Prepend(s[..e + 1], SplitLines(s[e + 1..]))
  }

  function Prepend(line: string, r: Split): Split {
    Split([line] + r.lines, r.rest)
  }

  function Concat(pieces: seq<string>): string {
    if pieces == [] then "" else pieces[0] + Concat(pieces[1..])
  }

  predicate IsLine(s: string) {
    s != "" && s[|s| - 1] == NEWLINE && forall k :: 0 <= k < |s| - 1 ==> s[k] != NEWLINE
  }

  predicate HasNewline(s: string) {
    exists k :: 0 <= k < |s| && s[k] == NEWLINE
  }

  lemma NoLine(s: string)
    requires !HasNewline(s)
    ensures SplitLines(s) == Split([], s)
  {
  }

  /** A line in front is split off. */
  lemma SplitFirst(line: string, s: string)
    requires IsLine(line)
    ensures SplitLines(line + s) == Prepend(line, SplitLines(s))
  {
    var t := line + s;
    LineEndIs(t, |line| - 1);
    assert t[..|line|] == line && t[|line|..] == s;
  }

  lemma {:induction false} LineEndIs(s: string, e: nat)
    requires e < |s| && s[e] == NEWLINE && forall k :: 0 <= k < e ==> s[k] != NEWLINE
    ensures LineEnd(s, 0) == e
  {
  }

  /** Takes the first line off a text. */
  lemma Peel(s: string) returns (line: string, more: string)
    requires HasNewline(s)
    ensures IsLine(line) && s == line + more && SplitLines(s) == Prepend(line, SplitLines(more))
  {
    var e := LineEnd(s, 0);
    line, more := s[..e + 1], s[e + 1..];
    assert s == line + more;
  }

  /** Nothing is lost or changed, every line is one line, and the rest is none. */
  lemma {:induction false} SplitKeepsAll(s: string)
    ensures var r := SplitLines(s);
      && Concat(r.lines) + r.rest == s && !HasNewline(r.rest)
      && forall i :: 0 <= i < |r.lines| ==> IsLine(r.lines[i])
    decreases |s|
  {
    hide SplitLines, HasNewline, IsLine;
    if !HasNewline(s) {
      NoLine(s);
      assert "" + s == s;
    } else {
      var line, more := Peel(s);
      NotEmpty(line);
      SplitKeepsAll(more);
      var r := SplitLines(more);
      assert ([line] + r.lines)[1..] == r.lines;
      assert line + Concat(r.lines) + r.rest == line + (Concat(r.lines) + r.rest);
    }
  }

  lemma NotEmpty(line: string)
    requires IsLine(line)
    ensures |line| > 0
  {
  }

  /** Splitting does not care where the text was cut: the second part, put behind
      what the first one left over, gives the remaining lines. */
  lemma {:induction false} SplitConcat(a: string, b: string)
    ensures var l, r := SplitLines(a), SplitLines(SplitLines(a).rest + b);
      SplitLines(a + b) == Split(l.lines + r.lines, r.rest)
    decreases |a|
  {
    hide SplitLines, HasNewline, IsLine;
    if !HasNewline(a) {
      NoLine(a);
      assert [] + SplitLines(a + b).lines == SplitLines(a + b).lines;
    } else {
      var line, more := Peel(a);
      NotEmpty(line);
      SplitConcat(more, b);
      assert line + more + b == line + (more + b);
      SplitFirst(line, more + b);
      Regroup(line, SplitLines(more).lines, SplitLines(SplitLines(more).rest + b).lines);
    }
  }

  lemma Regroup(line: string, l: seq<string>, r: seq<string>)
    ensures [line] + (l + r) == [line] + l + r
  {
  }

  /** A buffer between a connection and whoever takes the lines. */
  class LineBuffer {
    const buf: array<char>
    var bof: nat
    /** Everything received, and every line handed over, since the start. */
    ghost var received: string
    ghost var delivered: seq<string>

    /** The lines handed over and the bytes kept are the text received, split. */
    ghost predicate Valid()
      reads this, buf
    {
      && bof <= buf.Length
      && Split(delivered, buf[..bof]) == SplitLines(received)
    }

    constructor (size: nat)
      ensures Valid() && fresh(buf) && buf.Length == size && received == "" && delivered == []
    {
      buf := new char[size];
      bof := 0;
      received := "";
      delivered := [];
    }

    /** The next newline from npr on, or the end of what is there. */
    method Find(npr: nat) returns (x: nat)
      requires npr <= bof <= buf.Length
      ensures npr <= x <= bof && (x < bof ==> buf[x] == NEWLINE)
      ensures forall k :: npr <= k < x ==> buf[k] != NEWLINE
    {
      x := npr;
      while x < bof && buf[x] != NEWLINE
        invariant npr <= x <= bof
        invariant forall k :: npr <= k < x ==> buf[k] != NEWLINE
      {
        x := x + 1;
      }
    }

    /** Takes the lines off the front of the buffer and moves the rest there. */
    method TakeLines() returns (lines: seq<string>)
      requires bof <= buf.Length
      modifies buf, `bof
      ensures bof <= buf.Length
      ensures Split(lines, buf[..bof]) == SplitLines(old(buf[..bof]))
    {
      hide SplitLines;
      ghost var text := buf[..bof];
      var npr := 0;
      lines := [];
      var x := Find(0);
      StartOf(text);
      while x < bof
        invariant npr <= x <= bof <= buf.Length && bof == |text| && buf[..bof] == text
        invariant x < bof ==> text[x] == NEWLINE
        invariant forall k :: npr <= k < x ==> text[k] != NEWLINE
        invariant SplitLines(text) == Behind(lines, SplitLines(text[npr..]))
        decreases bof - npr
      {
        FirstLine(text, npr, x);
        assert buf[npr..x + 1] == buf[..bof][npr..x + 1];
        BehindOne(lines, text[npr..x + 1], SplitLines(text[x + 1..]));
        lines := lines + [buf[npr..x + 1]];
        npr := x + 1;
        x := Find(npr);
        assert forall k :: npr <= k < x ==> text[k] == buf[k];
      }
      LastPart(text, npr);
      if npr < bof {
        forall i | 0 <= i < bof - npr {
          buf[i] := buf[npr + i];
        }
      }
      bof := bof - npr;
      assert buf[..bof] == text[npr..];
      assert lines + [] == lines;
    }

    /** The callback: bytes are read into what room there is, and each line that
        is complete now is handed over. */
    method Receive(chunk: string) returns (lines: seq<string>)
      requires Valid() && |chunk| <= buf.Length - bof
      modifies this, buf
      ensures Valid() && received == old(received) + chunk && delivered == old(delivered) + lines
    {
      ghost var kept := buf[..bof];
      forall i | 0 <= i < |chunk| {
        buf[bof + i] := chunk[i];
      }
      bof := bof + |chunk|;
      assert buf[..bof] == kept + chunk;
      lines := TakeLines();
      SplitConcat(received, chunk);
      received := received + chunk;
      delivered := delivered + lines;
    }
  }

  /** A split with more lines in front. */
  function Behind(lines: seq<string>, r: Split): Split {
    Split(lines + r.lines, r.rest)
  }

  lemma BehindOne(lines: seq<string>, line: string, r: Split)
    ensures Behind(lines, Prepend(line, r)) == Behind(lines + [line], r)
  {
  }

  lemma StartOf(text: string)
    ensures text[0..] == text && Behind([], SplitLines(text)) == SplitLines(text)
  {
  }

  lemma FirstLine(text: string, npr: nat, x: nat)
    requires npr <= x < |text| && text[x] == NEWLINE && forall k :: npr <= k < x ==> text[k] != NEWLINE
    ensures SplitLines(text[npr..]) == Prepend(text[npr..x + 1], SplitLines(text[x + 1..]))
  {
    assert text[npr..] == text[npr..x + 1] + text[x + 1..];
    SplitFirst(text[npr..x + 1], text[x + 1..]);
  }

  lemma LastPart(text: string, npr: nat)
    requires npr <= |text| && forall k :: npr <= k < |text| ==> text[k] != NEWLINE
    ensures SplitLines(text[npr..]) == Split([], text[npr..])
  {
    assert !HasNewline(text[npr..]);
    NoLine(text[npr..]);
  }

  // ----- whole connections -----

  /** What a connection has done: lines handed over, bytes kept. */
  function AfterChunk(st: Split, chunk: string): Split {
    var r := SplitLines(st.rest + chunk);
    Split(st.lines + r.lines, r.rest)
  }

  function AfterChunks(st: Split, chunks: seq<string>): Split
    decreases |chunks|
  {
    if chunks == [] then st else AfterChunks(AfterChunk(st, chunks[0]), chunks[1..])
  }

  lemma {:induction false} RunIsSplit(sent: string, chunks: seq<string>)
    ensures AfterChunks(SplitLines(sent), chunks) == SplitLines(sent + Concat(chunks))
    decreases |chunks|
  {
    hide SplitLines;
    if chunks == [] {
      assert sent + "" == sent;
    } else {
      assert sent + Concat(chunks) == sent + chunks[0] + Concat(chunks[1..]);
      hide Concat;
      SplitConcat(sent, chunks[0]);
      RunIsSplit(sent + chunks[0], chunks[1..]);
    }
  }

  /** However the bytes of a stream are cut into reads, the same lines are handed
      over and the same bytes are left. */
  lemma CutsDoNotMatter(a: seq<string>, b: seq<string>)
    requires Concat(a) == Concat(b)
    ensures AfterChunks(Split([], ""), a) == AfterChunks(Split([], ""), b) == SplitLines(Concat(a))
  {
    assert SplitLines("") == Split([], "");
    RunIsSplit("", a);
    RunIsSplit("", b);
    assert "" + Concat(a) == Concat(a);
  }

  /** Every line of the stream, and what stands behind the last one, fits. */
  predicate LinesFit(s: string, size: nat) {
    var r := SplitLines(s);
    |r.rest| < size && forall i :: 0 <= i < |r.lines| ==> |r.lines[i]| <= size
  }

  lemma FitParts(line: string, more: string, size: nat)
    requires IsLine(line)
    ensures LinesFit(line + more, size) <==> |line| <= size && LinesFit(more, size)
  {
    SplitFirst(line, more);
    hide SplitLines;
    var r := SplitLines(more);
    var all := [line] + r.lines;
    assert all[0] == line && forall i :: 0 <= i < |r.lines| ==> all[i + 1] == r.lines[i];
    assert forall i :: 0 < i < |all| ==> all[i] == r.lines[i - 1];
  }

  lemma OnlyRest(s: string, size: nat)
    requires !HasNewline(s)
    ensures LinesFit(s, size) <==> |s| < size
  {
    NoLine(s);
  }

  lemma NoNewlineInFront(s: string, cut: nat)
    requires cut <= |s| && (!HasNewline(s) || (exists line, more :: IsLine(line) && s == line + more && cut < |line|))
    ensures !HasNewline(s[..cut])
  {
  }

  /** Lines of at most the buffer's size never fill it, wherever a read ends: there
      is always room for the next byte. */
  lemma {:induction false} RoomForMore(s: string, size: nat, cut: nat)
    requires LinesFit(s, size) && cut <= |s|
    ensures |SplitLines(s[..cut]).rest| < size
    decreases |s|
  {
    hide SplitLines, HasNewline, IsLine, LinesFit;
    if !HasNewline(s) {
      OnlyRest(s, size);
      NoNewlineInFront(s, cut);
      NoLine(s[..cut]);
    } else {
      var line, more := Peel(s);
      NotEmpty(line);
      FitParts(line, more, size);
      if cut < |line| {
        NoNewlineInFront(s, cut);
        NoLine(s[..cut]);
      } else {
        assert s[..cut] == line + more[..cut - |line|];
        SplitFirst(line, more[..cut - |line|]);
        RoomForMore(more, size, cut - |line|);
      }
    }
  }

  /** And only such lines do not: with a longer one, a read that ends at some point
      leaves the buffer full, and the next one finds no room, which counts as a
      hang-up. */
  lemma {:induction false} LongLineFills(s: string, size: nat) returns (cut: nat)
    requires !LinesFit(s, size)
    ensures cut <= |s| && |SplitLines(s[..cut]).rest| == size
    decreases |s|
  {
    hide SplitLines, HasNewline, IsLine, LinesFit;
    if !HasNewline(s) {
      OnlyRest(s, size);
      cut := size;
      NoNewlineInFront(s, cut);
      NoLine(s[..cut]);
    } else {
      var line, more := Peel(s);
      NotEmpty(line);
      FitParts(line, more, size);
      if |line| > size {
        cut := size;
        NoNewlineInFront(s, cut);
        NoLine(s[..cut]);
      } else {
        var c := LongLineFills(more, size);
        cut := |line| + c;
        assert s[..cut] == line + more[..c];
        SplitFirst(line, more[..c]);
      }
    }
  }
}
