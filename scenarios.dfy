/** Concrete documents for small codes. */
module Scenarios {
  import opened Wrappers
  import opened Decimal
  import opened QrSvg

  /** An `n` by `n` code with every module light. */
  function Blank(n: nat): (qr: QrCode)
    ensures WellFormed(qr) && qr.matrixSize == n
    ensures forall r, c :: 0 <= r < n && 0 <= c < n ==> !qr.matrix[r][c]
  {
    QrCode(n, seq(n, _ => seq(n, _ => false)))
  }

  /** A code with no dark module has empty path data, whatever its size. */
  lemma BlankPath(n: nat, cellSize: nat, margin: nat)
    ensures PathData(Blank(n), cellSize, margin) == ""
  {
    PathDataEmpty(Blank(n), cellSize, margin);
  }

  /** The decimal forms used by the scenarios below. */
  lemma SmallNumerals()
    ensures NatToString(0) == "0" && NatToString(2) == "2" && NatToString(5) == "5"
    ensures NatToString(8) == "8" && NatToString(58) == "58"
  {
    assert NatToString(5) == "5";
    assert NatToString(8) == "8";
  }

  /** A code with no dark module and both defaults: nothing is drawn between
      the header and the trailer, and the canvas side is `(n + 8) * 2`. */
  lemma BlankCodeWithDefaults(n: nat)
    ensures Document(Blank(n), None, None) == Header((n + 8) * 2) + Trailer()
  {
    BlankPath(n, 2, 8);
    assert Header(CanvasSize(n, 8)) + "" == Header(CanvasSize(n, 8));
  }

  /** For a version-1 sized code (21 by 21) the defaults give the viewBox `0 0 58 58`. */
  lemma VersionOneCanvas()
    ensures CanvasSize(21, ResolveMargin(None, ResolveCellSize(None))) == 58
    ensures ViewBox(58) == " viewBox=\"0 0 58 58\" "
  {
    SmallNumerals();
  }

  /** The only subpath of a code whose one module is dark. */
  lemma OneModulePath(cellSize: nat, margin: nat)
    ensures PathData(QrCode(1, [[true]]), cellSize, margin) == Subpath(margin, margin, Rect(cellSize))
  {
    var qr := QrCode(1, [[true]]);
    assert DarkCells(qr) == [Cell(0, 0)];
    assert PathFor([Cell(0, 0)], cellSize, margin, Rect(cellSize))
        == CellSubpath(Cell(0, 0), cellSize, margin, Rect(cellSize)) + "";
  }

  /** The square suffix for a cell size whose decimal form is `d`. */
  lemma RectText(cellSize: nat, d: string)
    requires NatToString(cellSize) == d
    ensures Rect(cellSize) == "l" + d + ",0 0," + d + " -" + d + ",0 0,-" + d + "z "
  {
  }

  /** A subpath whose two coordinates are both `x`, with decimal form `d`. */
  lemma MoveText(x: nat, d: string, rect: string)
    requires NatToString(x) == d
    ensures Subpath(x, x, rect) == "M" + d + "," + d + rect
  {
  }

  lemma RectTwo()
    ensures Rect(2) == "l2,0 0,2 -2,0 0,-2z "
  {
    SmallNumerals();
    RectText(2, "2");
    JoinRectTwo();
  }

  lemma RectFive()
    ensures Rect(5) == "l5,0 0,5 -5,0 0,-5z "
  {
    SmallNumerals();
    RectText(5, "5");
    JoinRectFive();
  }

  /** One dark module at (0, 0), cell size 2 and margin 8: exactly one
      subpath, starting at (8, 8). */
  lemma SingleModule()
    ensures PathData(QrCode(1, [[true]]), 2, 8) == "M8,8l2,0 0,2 -2,0 0,-2z "
  {
    OneModulePath(2, 8);
    RectTwo();
    SmallNumerals();
    MoveText(8, "8", Rect(2));
    JoinSingleModule();
  }

  /** Cell size 5 and margin 0 on the same code: the square starts at the origin. */
  lemma FiveAtOrigin()
    ensures PathData(QrCode(1, [[true]]), 5, 0) == "M0,0l5,0 0,5 -5,0 0,-5z "
  {
    OneModulePath(5, 0);
    RectFive();
    SmallNumerals();
    MoveText(0, "0", Rect(5));
    JoinFiveAtOrigin();
  }

  /** Cell size 5 and an explicit zero margin on a one-module code: the
      margin stays 0, so the canvas is 2 by 2. */
  lemma ExplicitParameters()
    ensures Document(QrCode(1, [[true]]), Some(5), Some(0))
         == Header(2) + "M0,0l5,0 0,5 -5,0 0,-5z " + Trailer()
    ensures ViewBox(2) == " viewBox=\"0 0 2 2\" "
  {
    assert ResolveCellSize(Some(5)) == 5 && ResolveMargin(Some(0), 5) == 0;
    assert CanvasSize(1, 0) == 2;
    FiveAtOrigin();
    SmallNumerals();
  }

  // Joining the literal pieces, kept apart from the definitions above.

  lemma JoinRectTwo()
    ensures "l" + "2" + ",0 0," + "2" + " -" + "2" + ",0 0,-" + "2" + "z " == "l2,0 0,2 -2,0 0,-2z "
  {
  }

  lemma JoinRectFive()
    ensures "l" + "5" + ",0 0," + "5" + " -" + "5" + ",0 0,-" + "5" + "z " == "l5,0 0,5 -5,0 0,-5z "
  {
  }

  lemma JoinSingleModule()
    ensures "M" + "8" + "," + "8" + "l2,0 0,2 -2,0 0,-2z " == "M8,8l2,0 0,2 -2,0 0,-2z "
  {
  }

  lemma JoinFiveAtOrigin()
    ensures "M" + "0" + "," + "0" + "l5,0 0,5 -5,0 0,-5z " == "M0,0l5,0 0,5 -5,0 0,-5z "
  {
  }
}
