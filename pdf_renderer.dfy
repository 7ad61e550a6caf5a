/**
 * `generate_pdf` as the program runs it: a canvas object whose log the
 * drawing calls extend, a cursor variable lowered and reset in a loop over
 * the lines, and an inner loop that cuts long lines.  Its result is proved
 * equal to the specification `PdfLayout.Render`.
 */
module PdfRenderer {
  import opened TextOps
  import opened PdfLayout

  /** The drawing surface: what has been drawn so far, and the current page. */
  class Canvas {
    var log: seq<Op>
    var page: nat

    constructor ()
      ensures log == [] && page == 0
    {
      log := [];
      page := 0;
    }

    /** The bold title line. */
    method DrawTitle(y: int)
      modifies this
      ensures log == old(log) + [Title(y)] && page == old(page)
    {
      log := log + [Title(y)];
    }

    /** `drawString` at the left margin of the current page. */
    method DrawString(y: int, s: string)
      modifies this
      ensures log == old(log) + [Draw(old(page), y, s)] && page == old(page)
    {
      log := log + [Draw(page, y, s)];
    }

    /** `showPage`: closes the current page; later drawing lands on the next one. */
    method ShowPage()
      modifies this
      ensures log == old(log) + [Op.ShowPage] && page == old(page) + 1
    {
      log := log + [Op.ShowPage];
      page := page + 1;
    }
  }

  /**
   * The wrap loop for a non-blank line: it draws 110-character pieces and
   * then the stripped remainder, 12 points apart.
   */
  method DrawWrapped(c: Canvas, line: string, y: int) returns (next: int)
    modifies c
    ensures c.log == old(c.log) + DrawAll(Wrap(line), old(c.page), y)
    ensures c.page == old(c.page)
    ensures next == y - LineHeight * |Wrap(line)|
  {
    var rest := line;
    next := y;
    ghost var done := [];
    while |rest| > WrapWidth
      invariant FullChunks(line) == done + FullChunks(rest)
      invariant Remainder(rest) == Remainder(line)
      invariant c.log == old(c.log) + DrawAll(done, c.page, y)
      invariant next == y - LineHeight * |done|
      invariant c.page == old(c.page)
      decreases |rest|
    {
      DrawAllSnoc(done, rest[..WrapWidth], c.page, y);
      c.DrawString(next, rest[..WrapWidth]);
      done := done + [rest[..WrapWidth]];
      rest := rest[WrapWidth..];
      next := next - LineHeight;
    }
    assert Wrap(line) == done + [Strip(rest)];
    DrawAllSnoc(done, Strip(rest), c.page, y);
    c.DrawString(next, Strip(rest));
    next := next - LineHeight;
  }

  /**
   * One pass of the loop over lines: a blank line only lowers the cursor;
   * any other line is drawn, then the cursor is checked against the bottom margin.
   */
  method DrawLine(c: Canvas, line: string, y: int) returns (next: int)
    modifies c
    ensures c.log == old(c.log) + LayoutLine(line, Pen(old(c.page), y)).0
    ensures Pen(c.page, next) == LayoutLine(line, Pen(old(c.page), y)).1
  {
    if IsBlank(line) {
      next := y - LineHeight;
    } else {
      next := DrawWrapped(c, line, y);
      if next < BottomMargin {
        c.ShowPage();
        next := TopY;
      }
    }
  }

  /** Lays `text` out on a fresh canvas and returns the canvas log. */
  method GeneratePdf(text: string) returns (ops: seq<Op>)
    ensures ops == Render(text)
  {
    var c := new Canvas();
    var y := TopY;
    c.DrawTitle(y);
    y := y - 30;
    var lines := Split(text, '\n');
    var i := 0;
    while i < |lines|
      invariant 0 <= i <= |lines|
      invariant c.log == [Title(TopY)] + Layout(lines[..i], Pen(0, BodyTop)).0
      invariant Pen(c.page, y) == Layout(lines[..i], Pen(0, BodyTop)).1
    {
      assert lines[..i + 1] == lines[..i] + [lines[i]];
      LayoutSnoc(lines[..i], lines[i], Pen(0, BodyTop));
      ghost var done := Layout(lines[..i], Pen(0, BodyTop)).0;
      ghost var step := LayoutLine(lines[i], Pen(c.page, y));
      y := DrawLine(c, lines[i], y);
      OpsAssoc([Title(TopY)], done, step.0);
      i := i + 1;
    }
    assert lines[..i] == lines;
    ops := c.log;
  }
}
