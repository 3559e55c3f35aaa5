/** The Markdown fence scanner, against a grammar of fenced documents. */
module Fences {
  import opened Ordering
  import opened Text

  const BACKTICK: Code := 0x60
  const TILDE: Code := 0x7E

  /** How many white-space code points the line starts with. */
  function Indent(line: Str): (k: nat)
    ensures k <= |line|
    ensures forall i :: 0 <= i < k ==> IsSpace(line[i])
    ensures k < |line| ==> !IsSpace(line[k])
  {
    if line == [] || !IsSpace(line[0]) then 0 else 1 + Indent(line[1..])
  }

  /** How often `c` is repeated at the start of the text. */
  function RunLength(s: Str, c: Code): (k: nat)
    ensures k <= |s|
    ensures forall i :: 0 <= i < k ==> s[i] == c
    ensures k < |s| ==> s[k] != c
  {
    if s == [] || s[0] != c then 0 else 1 + RunLength(s[1..], c)
  }

  /** A fence marker: its character, the length of its run, and whether only blanks follow. */
  datatype Marker = Marker(c: Code, length: nat, blankRest: bool)

  /** What the marker expression finds in a line. */
  function MarkerOf(line: Str): Option<Marker> {
    var text := line[Indent(line)..];
    if Indent(line) > 3 || text == [] || text[0] !in {BACKTICK, TILDE} then None
    else
      var length := RunLength(text, text[0]);
      if length < 3 then None else Some(Marker(text[0], length, IsBlank(text[length..])))
  }

  /** `line` ends the fence that `open` began. */
  predicate Closes(open: Marker, line: Str) {
    match MarkerOf(line)
    case None => false
    case Some(m) => m.c == open.c && m.length >= open.length && m.blankRest
  }

  /** The line holds, behind `k` white-space code points, a run of `n` times `c` that ends there. */
  predicate Run(line: Str, k: nat, n: nat, c: Code) {
    && k + n <= |line|
    && (forall i :: 0 <= i < k ==> IsSpace(line[i]))
    && (forall i :: k <= i < k + n ==> line[i] == c)
    && (k + n < |line| ==> line[k + n] != c)
  }

  /** Nothing but white space follows from `k` on. */
  predicate BlankFrom(line: Str, k: nat) {
    forall i :: k <= i < |line| ==> IsSpace(line[i])
  }

  predicate MarksFrom(line: Str, k: nat, m: Marker) {
    && Run(line, k, m.length, m.c) && m.length >= 3 && (m.c == 0x60 || m.c == 0x7E)
    && (m.blankRest <==> BlankFrom(line, k + m.length))
  }

  lemma FoundMarker(line: Str, m: Marker)
    requires MarkerOf(line) == Some(m)
    ensures Indent(line) <= 3 && MarksFrom(line, Indent(line), m)
  {
    hide IsSpace, IsBlank, BlankFrom, Indent, RunLength, Run;
    RunFound(line, m.c);
    RestMeaning(line, Indent(line), m.length);
  }

  lemma RunFound(line: Str, c: Code)
    ensures Run(line, Indent(line), RunLength(line[Indent(line)..], c), c)
  {
    hide IsSpace, Indent, RunLength;
    var k := Indent(line);
    var text := line[k..];
    forall i | k <= i < |line| ensures line[i] == text[i - k] {}
  }

  lemma RunIs(line: Str, k: nat, n: nat, c: Code)
    requires Run(line, k, n, c) && n > 0 && !IsSpace(c)
    ensures Indent(line) == k && RunLength(line[k..], c) == n
  {
    hide IsSpace, Indent, RunLength;
    assert line[k] == c;
    var text := line[k..];
    forall i | 0 <= i < |text| ensures text[i] == line[k + i] {}
  }

  /** A marker is a run of at least three backticks or tildes behind at most three white-space code points. */
  lemma MarkerMeaning(line: Str, m: Marker)
    ensures MarkerOf(line) == Some(m) <==> exists k :: 0 <= k <= 3 && MarksFrom(line, k, m)
  {
    if MarkerOf(line) == Some(m) { FoundMarker(line, m); }
    if k :| 0 <= k <= 3 && MarksFrom(line, k, m) {
      assert !IsSpace(m.c);
      hide IsSpace, IsBlank, BlankFrom;
      RunIs(line, k, m.length, m.c);
      RestMeaning(line, k, m.length);
      assert line[k..][0] == line[k] == m.c;
    }
  }

  lemma RestMeaning(line: Str, k: nat, n: nat)
    requires k + n <= |line|
    ensures IsBlank(line[k..][n..]) <==> BlankFrom(line, k + n)
  {
    var rest := line[k..][n..];
    assert forall i :: 0 <= i < |rest| ==> rest[i] == line[k + n + i];
    assert forall i :: k + n <= i < |line| ==> line[i] == rest[i - k - n];
  }

  /** A fence is closed by a run of its own character, at least as long, with nothing but white space around. */
  lemma ClosesMeaning(open: Marker, line: Str)
    requires open.length >= 3 && open.c in {0x60, 0x7E}
    ensures Closes(open, line) <==>
      exists k, n :: 0 <= k <= 3 && n >= open.length && Run(line, k, n, open.c) && BlankFrom(line, k + n)
  {
    hide MarkerOf, Run, BlankFrom;
    if Closes(open, line) {
      MarkerMeaning(line, MarkerOf(line).value);
      var k :| 0 <= k <= 3 && MarksFrom(line, k, MarkerOf(line).value);
    }
    if k, n :| 0 <= k <= 3 && n >= open.length && Run(line, k, n, open.c) && BlankFrom(line, k + n) {
      assert MarksFrom(line, k, Marker(open.c, n, true));
      MarkerMeaning(line, Marker(open.c, n, true));
    }
  }

  /** The scanner's state: outside, or inside the fence a marker opened. */
  type Fence = Option<Marker>

  function Step(fence: Fence, line: Str): Fence {
    match MarkerOf(line)
    case None => fence
    case Some(m) => if fence.None? then Some(m) else if Closes(fence.value, line) then None else fence
  }

  function Final(fence: Fence, lines: seq<Str>): Fence
    decreases |lines|
  {
    if lines == [] then fence else Final(Step(fence, lines[0]), lines[1..])
  }

  function Visible(fence: Fence, lines: seq<Str>): seq<Str>
    decreases |lines|
  {
    if lines == [] then []
    else
      var shown := if fence.None? && MarkerOf(lines[0]).None? then [lines[0]] else [];
      shown + Visible(Step(fence, lines[0]), lines[1..])
  }

  /** Scanning a concatenation is scanning the second part from where the first part ended. */
  lemma {:induction false} ScanConcat(fence: Fence, a: seq<Str>, b: seq<Str>)
    ensures Final(fence, a + b) == Final(Final(fence, a), b)
    ensures Visible(fence, a + b) == Visible(fence, a) + Visible(Final(fence, a), b)
    decreases |a|
  {
    hide MarkerOf, Step;
    if a == [] {
      assert a + b == b;
    } else {
      assert (a + b)[0] == a[0] && (a + b)[1..] == a[1..] + b;
      var next := Step(fence, a[0]);
      ScanConcat(next, a[1..], b);
      var shown := if fence.None? && MarkerOf(a[0]).None? then [a[0]] else [];
      assert shown + (Visible(next, a[1..]) + Visible(Final(next, a[1..]), b))
        == (shown + Visible(next, a[1..])) + Visible(Final(next, a[1..]), b);
    }
  }

  // ---- the grammar -------------------------------------------------------------------------------

  /** A document is a list of plain lines and closed fences, and perhaps a fence that never closes. */
  datatype Block = Plain(line: Str) | Fenced(open: Str, body: seq<Str>, close: Str)

  datatype Tail = Ended | Unclosed(open: Str, body: seq<Str>)

  ghost predicate StaysOpen(open: Str, body: seq<Str>) {
    MarkerOf(open).Some? && forall i :: 0 <= i < |body| ==> !Closes(MarkerOf(open).value, body[i])
  }

  ghost predicate ValidBlock(b: Block) {
    match b
    case Plain(line) => MarkerOf(line).None?
    case Fenced(open, body, close) => StaysOpen(open, body) && Closes(MarkerOf(open).value, close)
  }

  ghost predicate ValidDocument(blocks: seq<Block>, tail: Tail) {
    && (forall i :: 0 <= i < |blocks| ==> ValidBlock(blocks[i]))
    && (tail.Unclosed? ==> StaysOpen(tail.open, tail.body))
  }

  function BlockLines(b: Block): seq<Str> {
    match b
    case Plain(line) => [line]
    case Fenced(open, body, close) => [open] + body + [close]
  }

  function DocumentLines(blocks: seq<Block>, tail: Tail): seq<Str> {
    if blocks != [] then BlockLines(blocks[0]) + DocumentLines(blocks[1..], tail)
    else match tail case Ended => [] case Unclosed(open, body) => [open] + body
  }

  function PlainLines(blocks: seq<Block>): seq<Str> {
    if blocks == [] then []
    else (if blocks[0].Plain? then [blocks[0].line] else []) + PlainLines(blocks[1..])
  }

  lemma {:induction false} InsideFence(open: Marker, body: seq<Str>)
    requires forall i :: 0 <= i < |body| ==> !Closes(open, body[i])
    ensures Final(Some(open), body) == Some(open)
    ensures Visible(Some(open), body) == []
  {
    if body != [] { InsideFence(open, body[1..]); }
  }

  lemma OpenedFence(open: Str, body: seq<Str>)
    requires StaysOpen(open, body)
    ensures Final(None, [open] + body) == MarkerOf(open)
    ensures Visible(None, [open] + body) == []
  {
    InsideFence(MarkerOf(open).value, body);
    assert ([open] + body)[1..] == body;
  }

  /** A valid block is scanned from outside to outside, showing its plain line if it is one. */
  lemma BlockScan(b: Block)
    requires ValidBlock(b)
    ensures Final(None, BlockLines(b)) == None
    ensures Visible(None, BlockLines(b)) == PlainLines([b])
  {
    if b.Fenced? {
      OpenedFence(b.open, b.body);
      ScanConcat(None, [b.open] + b.body, [b.close]);
    }
  }

  /**
   * On every reading of the text as a document, the scanner shows its plain lines and ends open exactly if its tail is
   * unclosed.
   */
  lemma {:induction false} ScanReadsGrammar(blocks: seq<Block>, tail: Tail)
    requires ValidDocument(blocks, tail)
    ensures Visible(None, DocumentLines(blocks, tail)) == PlainLines(blocks)
    ensures Final(None, DocumentLines(blocks, tail)).None? <==> tail.Ended?
  {
    if blocks == [] {
      if tail.Unclosed? { OpenedFence(tail.open, tail.body); }
    } else {
      ScanReadsGrammar(blocks[1..], tail);
      BlockScan(blocks[0]);
      ScanConcat(None, BlockLines(blocks[0]), DocumentLines(blocks[1..], tail));
    }
  }

  /** The line loop of `markdown_errors`. */
  method ScanLines(lines: seq<Str>) returns (visible: seq<Str>, fence: Fence)
    ensures visible == Visible(None, lines)
    ensures fence == Final(None, lines)
    ensures forall blocks, tail :: ValidDocument(blocks, tail) && DocumentLines(blocks, tail) == lines ==>
      visible == PlainLines(blocks) && (fence.Some? <==> tail.Unclosed?)
  {
    hide MarkerOf, ValidDocument;
    forall blocks, tail | ValidDocument(blocks, tail) && DocumentLines(blocks, tail) == lines
      ensures Visible(None, lines) == PlainLines(blocks) && (Final(None, lines).Some? <==> tail.Unclosed?)
    {
      ScanReadsGrammar(blocks, tail);
    }
    fence, visible := None, [];
    var i := 0;
    while i < |lines|
      invariant 0 <= i <= |lines|
      invariant visible == Visible(None, lines[..i])
      invariant fence == Final(None, lines[..i])
    {
      var line := lines[i];
      var marker := MarkerOf(line);
      ScanConcat(None, lines[..i], [line]);
      assert lines[..i + 1] == lines[..i] + [line];
      if marker.Some? {
        if fence.None? {
          fence := marker;
        } else if marker.value.c == fence.value.c && marker.value.length >= fence.value.length
          && marker.value.blankRest {
          fence := None;
        }
      } else if fence.None? {
        visible := visible + [line];
      }
      i := i + 1;
    }
    assert lines[..i] == lines;
  }

  /** Every text can be read as a document. */
  lemma {:induction false} EveryTextIsADocument(lines: seq<Str>) returns (blocks: seq<Block>, tail: Tail)
    ensures ValidDocument(blocks, tail) && DocumentLines(blocks, tail) == lines
    decreases |lines|
  {
    hide MarkerOf, Closes, ValidDocument, DocumentLines;
    if lines == [] {
      NoLines();
      return [], Ended;
    }
    assert lines == [lines[0]] + lines[1..];
    if MarkerOf(lines[0]).None? {
      var rest, end := EveryTextIsADocument(lines[1..]);
      PrependBlock(Plain(lines[0]), rest, end);
      return [Plain(lines[0])] + rest, end;
    }
    var open := MarkerOf(lines[0]).value;
    var k := 1;
    while k < |lines| && !Closes(open, lines[k])
      invariant 1 <= k <= |lines|
      invariant forall i :: 1 <= i < k ==> !Closes(open, lines[i])
    {
      k := k + 1;
    }
    if k == |lines| {
      LastFence(lines[0], lines[1..]);
      return [], Unclosed(lines[0], lines[1..]);
    }
    var rest, end := EveryTextIsADocument(lines[k + 1..]);
    PrependBlock(Fenced(lines[0], lines[1..k], lines[k]), rest, end);
    assert lines == [lines[0]] + lines[1..k] + [lines[k]] + lines[k + 1..];
    blocks, tail := [Fenced(lines[0], lines[1..k], lines[k])] + rest, end;
  }

  lemma NoLines()
    ensures ValidDocument([], Ended) && DocumentLines([], Ended) == []
  {
  }

  lemma LastFence(open: Str, body: seq<Str>)
    requires StaysOpen(open, body)
    ensures ValidDocument([], Unclosed(open, body)) && DocumentLines([], Unclosed(open, body)) == [open] + body
  {
  }

  lemma PrependBlock(b: Block, blocks: seq<Block>, tail: Tail)
    requires ValidDocument(blocks, tail) && ValidBlock(b)
    ensures ValidDocument([b] + blocks, tail)
    ensures DocumentLines([b] + blocks, tail) == BlockLines(b) + DocumentLines(blocks, tail)
  {
  }

  /** The first closing line decides where a fence ends. */
  lemma FenceEnds(open: Marker, x: seq<Str>, y: seq<Str>, rx: seq<Str>, ry: seq<Str>)
    requires rx != [] && x + rx == y + ry
    requires forall i :: 0 <= i < |x| ==> !Closes(open, x[i])
    requires forall i :: 0 <= i < |y| ==> !Closes(open, y[i])
    requires Closes(open, rx[0]) && (ry == [] || Closes(open, ry[0]))
    ensures x == y && rx == ry
  {
    hide Closes;
    assert (x + rx)[|x|] == rx[0];
    assert ry != [] ==> (y + ry)[|y|] == ry[0];
    assert forall i :: 0 <= i < |x| ==> (x + rx)[i] == x[i];
    assert forall i :: 0 <= i < |y| ==> (y + ry)[i] == y[i];
    assert |x| == |y|;
    assert x == (x + rx)[..|x|] && y == (y + ry)[..|y|];
    assert rx == (x + rx)[|x|..] && ry == (y + ry)[|y|..];
  }

  /** The lines of a document from after its first line. */
  lemma FirstLine(blocks: seq<Block>, tail: Tail)
    requires blocks != [] || tail.Unclosed?
    ensures var lines := DocumentLines(blocks, tail);
      && lines != []
      && (blocks == [] ==> lines[0] == tail.open && lines[1..] == tail.body)
      && (blocks != [] && blocks[0].Plain? ==>
        lines[0] == blocks[0].line && lines[1..] == DocumentLines(blocks[1..], tail))
      && (blocks != [] && blocks[0].Fenced? ==>
            lines[0] == blocks[0].open
              && lines[1..] == blocks[0].body + ([blocks[0].close] + DocumentLines(blocks[1..], tail)))
  {
    if blocks != [] {
      var rest := DocumentLines(blocks[1..], tail);
      match blocks[0]
      case Plain(line) =>
      case Fenced(open, body, close) =>
        assert [open] + body + [close] + rest == [open] + (body + ([close] + rest));
    }
  }

  /** There is only one way to read a text as a document. */
  lemma {:induction false} OneReading(b1: seq<Block>, t1: Tail, b2: seq<Block>, t2: Tail)
    requires ValidDocument(b1, t1) && ValidDocument(b2, t2)
    requires DocumentLines(b1, t1) == DocumentLines(b2, t2)
    ensures b1 == b2 && t1 == t2
    decreases |b1|
  {
    hide MarkerOf, Closes;
    if b1 != [] || t1.Unclosed? { FirstLine(b1, t1); }
    if b2 != [] || t2.Unclosed? { FirstLine(b2, t2); }
    if b1 != [] && b1[0].Fenced? {
      var open := MarkerOf(b1[0].open).value;
      var rest1 := [b1[0].close] + DocumentLines(b1[1..], t1);
      if b2 == [] {
        assert t2.body + [] == t2.body;
        FenceEnds(open, b1[0].body, t2.body, rest1, []);
      } else {
        var rest2 := [b2[0].close] + DocumentLines(b2[1..], t2);
        FenceEnds(open, b1[0].body, b2[0].body, rest1, rest2);
        assert rest1[0] == rest2[0] && rest1[1..] == rest2[1..];
      }
    } else if b1 == [] && b2 != [] {
      assert t1.body + [] == t1.body;
      FenceEnds(MarkerOf(t1.open).value, b2[0].body, t1.body, [b2[0].close] + DocumentLines(b2[1..], t2), []);
    }
    if b1 != [] && b2 != [] {
      OneReading(b1[1..], t1, b2[1..], t2);
      assert b1 == [b1[0]] + b1[1..] && b2 == [b2[0]] + b2[1..];
    }
  }
}
