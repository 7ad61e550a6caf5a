/**
 * What `generate_pdf` puts on the canvas, as a pure specification.  The
 * canvas is an operation log: the title, each `drawString` of a body line
 * (with the page it lands on) and each `showPage`.  The left margin (40),
 * the fonts and the PDF bytes are not part of the log.
 */
module PdfLayout {
  import opened TextOps

  /** LETTER is 612 by 792 points; every coordinate used here is a whole number. */
  const PageHeight: int := 792
  /** The title baseline, and where the cursor restarts after a page break. */
  const TopY: int := PageHeight - 40
  /** The first body line sits 30 points below the title. */
  const BodyTop: int := TopY - 30
  const LineHeight: int := 12
  const BottomMargin: int := 40
  /** Body lines longer than this are cut into pieces of exactly this length. */
  const WrapWidth: nat := 110

  datatype Op =
    | Title(y: int)
    | Draw(page: nat, y: int, text: string)
    | ShowPage

  /** The vertical cursor and the number of the page being drawn on (from 0). */
  datatype Pen = Pen(page: nat, y: int)

  /** `not line.strip()`. */
  predicate IsBlank(line: string) {
    Strip(line) == []
  }

  /** The 110-character pieces the wrap loop draws before the last one. */
  function FullChunks(line: string): (r: seq<string>)
    ensures forall i :: 0 <= i < |r| ==> |r[i]| == WrapWidth
    ensures |line| <= WrapWidth ==> r == []
    decreases |line|
  {
    if |line| > WrapWidth then [line[..WrapWidth]] + FullChunks(line[WrapWidth..]) else []
  }

  /** What is left of a line when the wrap loop stops. */
  function Remainder(line: string): (r: string)
    ensures |r| <= WrapWidth && |r| <= |line|
    decreases |line|
  {
    if |line| > WrapWidth then Remainder(line[WrapWidth..]) else line
  }

  /** A non-empty line leaves ceil(len/110) - 1 full pieces and a non-empty remainder. */
  lemma {:induction false} ChunkCount(line: string)
    requires |line| > 0
    ensures |FullChunks(line)| == (|line| - 1) / WrapWidth
    ensures |Remainder(line)| > 0
    decreases |line|
  {
    if |line| > WrapWidth {
      ChunkCount(line[WrapWidth..]);
    }
  }

  /** The full pieces followed by the unstripped remainder are the line itself. */
  lemma {:induction false} ChunksRebuildLine(line: string)
    ensures Concat(FullChunks(line)) + Remainder(line) == line
    decreases |line|
  {
    if |line| > WrapWidth {
      var rest := line[WrapWidth..];
      ChunksRebuildLine(rest);
      assert ([line[..WrapWidth]] + FullChunks(rest))[1..] == FullChunks(rest);
      assert line == line[..WrapWidth] + rest;
    }
  }

  /** The strings drawn for one non-blank line, in order. */
  function Wrap(line: string): seq<string> {
    FullChunks(line) + [Strip(Remainder(line))]
  }

  /** Every piece is at most 110 characters; all but the last are exactly 110. */
  lemma WrapWidths(line: string)
    ensures |Wrap(line)| >= 1
    ensures forall i :: 0 <= i < |Wrap(line)| ==> |Wrap(line)[i]| <= WrapWidth
    ensures forall i :: 0 <= i < |Wrap(line)| - 1 ==> |Wrap(line)[i]| == WrapWidth
  {
  }

  /** A non-empty line is drawn as ceil(len/110) pieces. */
  lemma WrapCount(line: string)
    requires |line| > 0
    ensures |Wrap(line)| == (|line| + WrapWidth - 1) / WrapWidth
  {
    ChunkCount(line);
  }

  /**
   * Only the last piece is stripped: with the remainder in its place, the
   * pieces concatenate to the line.
   */
  lemma WrapRebuildsLine(line: string)
    ensures Wrap(line)[|Wrap(line)| - 1] == Strip(Remainder(line))
    ensures Concat(Wrap(line)[..|Wrap(line)| - 1]) + Remainder(line) == line
  {
    var w := Wrap(line);
    assert w[..|w| - 1] == FullChunks(line);
    ChunksRebuildLine(line);
  }

  /** A line of at most 110 characters without surrounding whitespace is drawn verbatim. */
  lemma ShortLineVerbatim(line: string)
    requires 0 < |line| <= WrapWidth
    requires !IsSpace(line[0]) && !IsSpace(line[|line| - 1])
    ensures !IsBlank(line) && Wrap(line) == [line]
  {
    assert StripLeft(line) == line;
    assert StripRight(line) == line;
  }

  /** Pieces drawn one below the other, 12 points apart, starting at `y`. */
  function DrawAll(pieces: seq<string>, page: nat, y: int): (r: seq<Op>)
    ensures |r| == |pieces|
  {
    seq(|pieces|, i requires 0 <= i < |pieces| => Draw(page, y - LineHeight * i, pieces[i]))
  }

  /** Drawing one more piece continues 12 points lower. */
  lemma DrawAllSnoc(pieces: seq<string>, s: string, page: nat, y: int)
    ensures DrawAll(pieces + [s], page, y) == DrawAll(pieces, page, y) + [Draw(page, y - LineHeight * |pieces|, s)]
  {
  }

  /**
   * One iteration of the loop over lines.  A blank line only lowers the
   * cursor.  Any other line draws all its pieces, and only after the last
   * one is the cursor compared with the bottom margin.
   */
  function LayoutLine(line: string, pen: Pen): (seq<Op>, Pen) {
    if IsBlank(line) then ([], Pen(pen.page, pen.y - LineHeight))
    else
      var pieces := Wrap(line);
      var y := pen.y - LineHeight * |pieces|;
      if y < BottomMargin then (DrawAll(pieces, pen.page, pen.y) + [ShowPage], Pen(pen.page + 1, TopY))
      else (DrawAll(pieces, pen.page, pen.y), Pen(pen.page, y))
  }

  /** The loop over `lines` from cursor `pen`: the operations and the final cursor. */
  function Layout(lines: seq<string>, pen: Pen): (seq<Op>, Pen)
    decreases |lines|
  {
    if lines == [] then ([], pen)
    else
      var (ops, mid) := Layout(lines[..|lines| - 1], pen);
      var (more, next) := LayoutLine(lines[|lines| - 1], mid);
      (ops + more, next)
  }

  /** One more line continues from where the earlier ones left the cursor. */
  lemma LayoutSnoc(lines: seq<string>, line: string, pen: Pen)
    ensures var (ops, mid) := Layout(lines, pen);
            var (more, next) := LayoutLine(line, mid);
            Layout(lines + [line], pen) == (ops + more, next)
  {
    assert (lines + [line])[..|lines|] == lines;
  }

  /** Regrouping a concatenation of logs; kept as a lemma so the solver does not search for it. */
  lemma OpsAssoc(a: seq<Op>, b: seq<Op>, c: seq<Op>)
    ensures (a + b) + c == a + (b + c)
  {
  }

  /** The whole canvas log of `generate_pdf(text)`. */
  function Render(text: string): seq<Op> {
    [Title(TopY)] + Layout(Split(text, '\n'), Pen(0, BodyTop)).0
  }

  // ---------------------------------------------------------------------
  // One line

  /**
   * A blank line draws nothing and lowers the cursor by 12.  A non-blank line
   * draws its pieces 12 points apart on the current page, with no page check
   * between them; a page break follows exactly when the cursor has fallen
   * below the bottom margin, so afterwards the cursor is at least 40.
   */
  lemma LineLayoutFacts(line: string, pen: Pen)
    ensures IsBlank(line) ==> LayoutLine(line, pen) == ([], Pen(pen.page, pen.y - LineHeight))
    ensures !IsBlank(line) ==>
      var (ops, next) := LayoutLine(line, pen);
      var n := |Wrap(line)|;
      && n <= |ops|
      && (forall i :: 0 <= i < n ==> ops[i] == Draw(pen.page, pen.y - LineHeight * i, Wrap(line)[i]))
      && (ShowPage in ops <==> pen.y - LineHeight * n < BottomMargin)
      && ops[n..] == (if ShowPage in ops then [ShowPage] else [])
      && next.y >= BottomMargin
      && next.page == pen.page + |ops[n..]|
      && next == if pen.y - LineHeight * n < BottomMargin then Pen(pen.page + 1, TopY)
                 else Pen(pen.page, pen.y - LineHeight * n)
  {
    if !IsBlank(line) {
      var pieces := Wrap(line);
      var draws := DrawAll(pieces, pen.page, pen.y);
      assert ShowPage !in draws;
    }
  }

  // ---------------------------------------------------------------------
  // Whole documents

  /** Layout of two runs of lines, one after the other. */
  lemma {:induction false} LayoutAppend(a: seq<string>, b: seq<string>, pen: Pen)
    ensures var (opsA, mid) := Layout(a, pen);
            var (opsB, next) := Layout(b, mid);
            Layout(a + b, pen) == (opsA + opsB, next)
    decreases |b|
  {
    if b == [] {
      assert a + b == a;
      var (opsA, mid) := Layout(a, pen);
      assert Layout(b, mid) == ([], mid);
      assert opsA + [] == opsA;
    } else {
      var b', l := b[..|b| - 1], b[|b| - 1];
      assert a + b == (a + b') + [l];
      assert b == b' + [l];
      LayoutAppend(a, b', pen);
      var (opsA, mid) := Layout(a, pen);
      var (opsB', mid') := Layout(b', mid);
      LayoutSnoc(a + b', l, pen);
      LayoutSnoc(b', l, mid);
      var (more, next) := LayoutLine(l, mid');
      OpsAssoc(opsA, opsB', more);
    }
  }

  /** `k` empty lines. */
  function Blanks(k: nat): (r: seq<string>)
    ensures |r| == k && forall i :: 0 <= i < k ==> r[i] == []
  {
    seq(k, _ => [])
  }

  /**
   * A run of blank lines (empty, or whitespace only such as the `"\r"` that
   * CRLF text leaves) draws nothing and never breaks the page, however low
   * the cursor goes.
   */
  lemma {:induction false} BlankRun(lines: seq<string>, pen: Pen)
    requires forall i :: 0 <= i < |lines| ==> IsBlank(lines[i])
    ensures Layout(lines, pen) == ([], Pen(pen.page, pen.y - LineHeight * |lines|))
  {
    if lines != [] {
      var k := |lines|;
      BlankRun(lines[..k - 1], pen);
      var mid := Pen(pen.page, pen.y - LineHeight * (k - 1));
      assert IsBlank(lines[k - 1]);
      assert LayoutLine(lines[k - 1], mid) == ([], Pen(pen.page, pen.y - LineHeight * k));
      var none: seq<Op> := [];
      assert none + none == none;
      assert Layout(lines, pen) == (none + none, Pen(pen.page, pen.y - LineHeight * k));
    }
  }

  /**
   * Blank lines are not followed by a page check, so sixty-two of them take
   * the cursor below the bottom of the page, and the next line is drawn at
   * y = -22, off the page.
   */
  lemma TextCanLeaveThePage()
    ensures var lines := Blanks(62) + ["A"];
            Render(Join(lines, '\n')) == [Title(TopY), Draw(0, -22, "A"), ShowPage]
  {
    var lines := Blanks(62) + ["A"];
    var pen, mid := Pen(0, BodyTop), Pen(0, -22);
    SplitJoin(lines, '\n');
    BlankRun(Blanks(62), pen);
    LayoutAppend(Blanks(62), ["A"], pen);
    assert Strip("A") == "A";
    assert Wrap("A") == ["A"];
    assert DrawAll(Wrap("A"), 0, -22) == [Draw(0, -22, "A")];
    assert LayoutLine("A", mid).0 == [Draw(0, -22, "A"), ShowPage];
    assert ["A"][..0] == [];
    assert Layout(["A"], mid).0 == [Draw(0, -22, "A"), ShowPage];
  }

  /** The strings of the `Draw` operations, in order. */
  function Drawn(ops: seq<Op>): seq<string> {
    if ops == [] then []
    else (if ops[0].Draw? then [ops[0].text] else []) + Drawn(ops[1..])
  }

  lemma {:induction false} DrawnAppend(a: seq<Op>, b: seq<Op>)
    ensures Drawn(a + b) == Drawn(a) + Drawn(b)
  {
    if a == [] {
      assert a + b == b;
    } else {
      assert (a + b)[1..] == a[1..] + b;
      DrawnAppend(a[1..], b);
    }
  }

  lemma {:induction false} DrawnDrawAll(pieces: seq<string>, page: nat, y: int)
    ensures Drawn(DrawAll(pieces, page, y)) == pieces
  {
    if pieces != [] {
      assert DrawAll(pieces, page, y)[1..] == DrawAll(pieces[1..], page, y - LineHeight);
      DrawnDrawAll(pieces[1..], page, y - LineHeight);
    }
  }

  /** The text a document should show: the pieces of each non-blank line, line by line. */
  function Body(lines: seq<string>): seq<string>
    decreases |lines|
  {
    if lines == [] then []
    else
      var last := lines[|lines| - 1];
      Body(lines[..|lines| - 1]) + (if IsBlank(last) then [] else Wrap(last))
  }

  /** Lines are laid out in order and nothing else is drawn: the drawn strings are `Body(lines)`. */
  lemma {:induction false} LayoutDrawsBody(lines: seq<string>, pen: Pen)
    ensures Drawn(Layout(lines, pen).0) == Body(lines)
    decreases |lines|
  {
    if lines != [] {
      var init := lines[..|lines| - 1];
      var last := lines[|lines| - 1];
      var (ops, mid) := Layout(init, pen);
      LayoutDrawsBody(init, pen);
      var (more, _) := LayoutLine(last, mid);
      DrawnAppend(ops, more);
      if !IsBlank(last) {
        var draws := DrawAll(Wrap(last), mid.page, mid.y);
        DrawnDrawAll(Wrap(last), mid.page, mid.y);
        DrawnAppend(draws, [ShowPage]);
        assert Drawn([ShowPage]) == [];
      }
    }
  }

  /** Every body string drawn is at most 110 characters long. */
  predicate Narrow(ops: seq<Op>) {
    forall i :: 0 <= i < |ops| && ops[i].Draw? ==> |ops[i].text| <= WrapWidth
  }

  lemma {:induction false} LayoutNarrow(lines: seq<string>, pen: Pen)
    ensures Narrow(Layout(lines, pen).0)
    decreases |lines|
  {
    if lines != [] {
      var init := lines[..|lines| - 1];
      var last := lines[|lines| - 1];
      LayoutNarrow(init, pen);
      WrapWidths(last);
    }
  }

  /** Number of `showPage` operations. */
  function CountShow(ops: seq<Op>): nat {
    if ops == [] then 0 else (if ops[0].ShowPage? then 1 else 0) + CountShow(ops[1..])
  }

  lemma {:induction false} CountShowAppend(a: seq<Op>, b: seq<Op>)
    ensures CountShow(a + b) == CountShow(a) + CountShow(b)
  {
    if a == [] {
      assert a + b == b;
    } else {
      assert (a + b)[1..] == a[1..] + b;
      CountShowAppend(a[1..], b);
    }
  }

  lemma {:induction false} CountShowDraws(pieces: seq<string>, page: nat, y: int, k: nat)
    requires k <= |pieces|
    ensures CountShow(DrawAll(pieces, page, y)[..k]) == 0
  {
    if k > 0 {
      var d := DrawAll(pieces, page, y)[..k];
      assert d[1..] == DrawAll(pieces[1..], page, y - LineHeight)[..k - 1];
      CountShowDraws(pieces[1..], page, y - LineHeight, k - 1);
    }
  }

  /** Each `Draw` names the page it lands on: the first page plus the breaks before it. */
  predicate PagesNumbered(ops: seq<Op>, first: nat) {
    forall i :: 0 <= i < |ops| && ops[i].Draw? ==> ops[i].page == first + CountShow(ops[..i])
  }

  lemma PagesNumberedAppend(a: seq<Op>, b: seq<Op>, first: nat)
    requires PagesNumbered(a, first) && PagesNumbered(b, first + CountShow(a))
    ensures PagesNumbered(a + b, first)
  {
    forall i | 0 <= i < |a + b| && (a + b)[i].Draw?
      ensures (a + b)[i].page == first + CountShow((a + b)[..i])
    {
      if i < |a| {
        assert (a + b)[..i] == a[..i];
      } else {
        assert (a + b)[..i] == a + b[..i - |a|];
        CountShowAppend(a, b[..i - |a|]);
      }
    }
  }

  /** One line's operations are numbered from the page it starts on. */
  lemma LinePages(line: string, pen: Pen)
    ensures PagesNumbered(LayoutLine(line, pen).0, pen.page)
    ensures LayoutLine(line, pen).1.page == pen.page + CountShow(LayoutLine(line, pen).0)
  {
    var (more, next) := LayoutLine(line, pen);
    if !IsBlank(line) {
      var pieces := Wrap(line);
      var draws := DrawAll(pieces, pen.page, pen.y);
      forall i | 0 <= i < |more| && more[i].Draw?
        ensures more[i].page == pen.page + CountShow(more[..i])
      {
        assert more[..i] == draws[..i];
        CountShowDraws(pieces, pen.page, pen.y, i);
      }
      CountShowDraws(pieces, pen.page, pen.y, |pieces|);
      assert draws[..|pieces|] == draws;
      CountShowAppend(draws, [ShowPage]);
    }
  }

  /**
   * Page numbers in the log are consistent: every line lands on the page
   * reached by the breaks before it, and the final cursor's page counts them all.
   */
  lemma {:induction false} LayoutPages(lines: seq<string>, pen: Pen)
    ensures PagesNumbered(Layout(lines, pen).0, pen.page)
    ensures Layout(lines, pen).1.page == pen.page + CountShow(Layout(lines, pen).0)
    decreases |lines|
  {
    if lines != [] {
      var init := lines[..|lines| - 1];
      var last := lines[|lines| - 1];
      var (ops, mid) := Layout(init, pen);
      LayoutPages(init, pen);
      var (more, next) := LayoutLine(last, mid);
      LinePages(last, mid);
      PagesNumberedAppend(ops, more, pen.page);
      CountShowAppend(ops, more);
    }
  }

  /**
   * The title is drawn 40 points below the top of the first page, and the
   * first body line, when it is not blank, 30 points below the title.
   */
  lemma RenderStart(text: string)
    ensures Render(text)[0] == Title(TopY)
    ensures var first := Split(text, '\n')[0];
            !IsBlank(first) ==> |Render(text)| > 1 && Render(text)[1] == Draw(0, BodyTop, Wrap(first)[0])
  {
    var lines := Split(text, '\n');
    var first := lines[0];
    if !IsBlank(first) {
      assert lines == [first] + lines[1..];
      LayoutAppend([first], lines[1..], Pen(0, BodyTop));
      assert [first][..0] == [];
      LineLayoutFacts(first, Pen(0, BodyTop));
      WrapWidths(first);
    }
  }
}
