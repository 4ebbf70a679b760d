/** A reader for the documents `createSvg` writes. It recovers the
    canvas size and the list of drawn squares; the lemmas below show that
    reading a written document gives back exactly the geometry the writer was
    meant to draw. */
module SvgReader {
  import opened Wrappers
  import opened Decimal
  import opened QrSvg

  /** One of the subpaths: a square of side `side` whose top-left corner is (x, y). */
  datatype Square = Square(x: nat, y: nat, side: nat)

  /** What a document draws: a `width` by `height` canvas and its black squares. */
  datatype Picture = Picture(width: nat, height: nat, squares: seq<Square>)

  /** Consumes the literal `lit` at the head of `t`, character by character. */
  function Expect(lit: string, t: string): (r: Option<string>)
    ensures r.Some? ==> |lit| <= |t| && r.value == t[|lit|..]
    decreases |lit|
  {
    if lit == [] then Some(t)
    else if t != [] && t[0] == lit[0] then Expect(lit[1..], t[1..])
    else None
  }

  /** Reads the move-to `M<x>,<y>` at the head of `t`. */
  function ReadMoveTo(t: string): (r: Option<(nat, nat, string)>)
    ensures r.Some? ==> |r.value.2| < |t|
  {
    var t1 :- Expect("M", t);
    var x :- ParseNat(t1);
    var t2 :- Expect(",", x.1);
    var y :- ParseNat(t2);
    Some((x.0, y.0, y.1))
  }

  /** Reads the relative square `l<s>,0 0,<s> -<s>,0 0,-<s>z ` at the head of
      `t`; the four lengths must agree. */
  function ReadRect(t: string): (r: Option<(nat, string)>)
    ensures r.Some? ==> |r.value.1| < |t|
  {
    var t1 :- Expect("l", t);
    var a :- ParseNat(t1);
    var t2 :- Expect(",0 0,", a.1);
    var b :- ParseNat(t2);
    var t3 :- Expect(" -", b.1);
    var c :- ParseNat(t3);
    var t4 :- Expect(",0 0,-", c.1);
    var d :- ParseNat(t4);
    var t5 :- Expect("z ", d.1);
    if a.0 == b.0 && b.0 == c.0 && c.0 == d.0 then Some((a.0, t5)) else None
  }

  /** Reads one subpath: a move-to followed by a relative square. */
  function ReadSquare(t: string): (r: Option<(Square, string)>)
    ensures r.Some? ==> |r.value.1| < |t|
  {
    var m :- ReadMoveTo(t);
    var s :- ReadRect(m.2);
    Some((Square(m.0, m.1, s.0), s.1))
  }

  /** Reads path data made of subpaths only. */
  function ReadPath(t: string): Option<seq<Square>>
    decreases |t|
  {
    if t == [] then Some([])
    else
      var first :- ReadSquare(t);
      var more :- ReadPath(first.1);
      Some([first.0] + more)
  }

  /** Reads the header up to the opening of the path data, returning the two
      viewBox dimensions and the text after the header. */
  function ReadHeader(doc: string): Option<(nat, nat, string)> {
    var t1 :- Expect(SvgOpen + ViewBoxOpen, doc);
    var w :- ParseNat(t1);
    var t2 :- Expect(" ", w.1);
    var h :- ParseNat(t2);
    var t3 :- Expect(ViewBoxClose + AspectRatio + TagEnd + Background + PathOpen, h.1);
    Some((w.0, h.0, t3))
  }

  /** Reads a whole document: the header with its viewBox, the path data and
      the trailer. */
  function ReadSvg(doc: string): Option<Picture> {
    var header :- ReadHeader(doc);
    var body := header.2;
    if |Trailer()| <= |body| && body[|body| - |Trailer()|..] == Trailer() then
      var squares :- ReadPath(body[..|body| - |Trailer()|]);
      Some(Picture(header.0, header.1, squares))
    else
      None
  }

  /** The squares the writer is meant to draw for `cells`, in the same order. */
  function SquaresOf(cells: seq<Cell>, cellSize: nat, margin: nat): seq<Square> {
    seq(|cells|, i requires 0 <= i < |cells| =>
      Square(ModuleX(cells[i], cellSize, margin), ModuleY(cells[i], cellSize, margin), cellSize))
  }

  // ---------------------------------------------------------------------
  // Round trips

  lemma {:induction false} ExpectLiteral(lit: string, rest: string)
    ensures Expect(lit, lit + rest) == Some(rest)
    decreases |lit|
  {
    if lit == [] {
      assert lit + rest == rest;
    } else {
      assert (lit + rest)[1..] == lit[1..] + rest;
      ExpectLiteral(lit[1..], rest);
    }
  }

  lemma Regroup5(a: string, b: string, c: string, d: string, e: string)
    ensures a + b + c + d + e == a + (b + (c + (d + e)))
  {
  }

  lemma Regroup10(a: string, b: string, c: string, d: string, e: string,
                  f: string, g: string, h: string, i: string, j: string)
    ensures a + b + c + d + e + f + g + h + i + j
         == a + (b + (c + (d + (e + (f + (g + (h + (i + j))))))))
  {
    Regroup5(a + b + c + d + e, f, g, h, i + j);
    Regroup5(a, b, c, d, e + (f + (g + (h + (i + j)))));
  }

  lemma ReadMoveToOfNumbers(x: nat, y: nat, rest: string)
    requires rest == [] || !IsDigit(rest[0])
    ensures ReadMoveTo("M" + NatToString(x) + "," + NatToString(y) + rest) == Some((x, y, rest))
  {
    var dx, dy := NatToString(x), NatToString(y);
    Regroup5("M", dx, ",", dy, rest);
    ExpectLiteral("M", dx + ("," + (dy + rest)));
    ParseNatToString(x, "," + (dy + rest));
    ExpectLiteral(",", dy + rest);
    ParseNatToString(y, rest);
  }

  /** The square suffix reads back as its side. */
  lemma ReadRectOfRect(s: nat, rest: string)
    ensures ReadRect(Rect(s) + rest) == Some((s, rest))
  {
    var ds := NatToString(s);
    Regroup10("l", ds, ",0 0,", ds, " -", ds, ",0 0,-", ds, "z ", rest);
    var t5 := "z " + rest;
    var t4 := ",0 0,-" + (ds + t5);
    var t3 := " -" + (ds + t4);
    var t2 := ",0 0," + (ds + t3);
    ExpectLiteral("l", ds + t2);
    ParseNatToString(s, t2);
    ExpectLiteral(",0 0,", ds + t3);
    ParseNatToString(s, t3);
    ExpectLiteral(" -", ds + t4);
    ParseNatToString(s, t4);
    ExpectLiteral(",0 0,-", ds + t5);
    ParseNatToString(s, t5);
    ExpectLiteral("z ", rest);
  }

  lemma ReadSquareOfSubpath(x: nat, y: nat, s: nat, rest: string)
    ensures ReadSquare(Subpath(x, y, Rect(s)) + rest) == Some((Square(x, y, s), rest))
  {
    var move := "M" + NatToString(x) + "," + NatToString(y);
    AppendAssoc(move, Rect(s), rest);
    ReadMoveToOfNumbers(x, y, Rect(s) + rest);
    ReadRectOfRect(s, rest);
  }

  lemma {:induction false} ReadPathOfPathFor(cells: seq<Cell>, cellSize: nat, margin: nat)
    ensures ReadPath(PathFor(cells, cellSize, margin, Rect(cellSize))) == Some(SquaresOf(cells, cellSize, margin))
    decreases |cells|
  {
    if cells == [] {
      assert SquaresOf(cells, cellSize, margin) == [];
    } else {
      var c := cells[0];
      var rest := PathFor(cells[1..], cellSize, margin, Rect(cellSize));
      var x, y := ModuleX(c, cellSize, margin), ModuleY(c, cellSize, margin);
      ReadSquareOfSubpath(x, y, cellSize, rest);
      assert PathFor(cells, cellSize, margin, Rect(cellSize)) == Subpath(x, y, Rect(cellSize)) + rest;
      assert PathFor(cells, cellSize, margin, Rect(cellSize)) != [];
      ReadPathOfPathFor(cells[1..], cellSize, margin);
      SquaresOfCons(cells, cellSize, margin);
    }
  }

  lemma SquaresOfCons(cells: seq<Cell>, cellSize: nat, margin: nat)
    requires cells != []
    ensures SquaresOf(cells, cellSize, margin)
         == [Square(ModuleX(cells[0], cellSize, margin), ModuleY(cells[0], cellSize, margin), cellSize)]
            + SquaresOf(cells[1..], cellSize, margin)
  {
  }

  lemma RegroupHeader(a: string, vo: string, d: string, sp: string, vc: string,
                      p1: string, p2: string, p3: string, p4: string, rest: string)
    ensures a + (vo + d + sp + d + vc) + p1 + p2 + p3 + p4 + rest
         == (a + vo) + (d + (sp + (d + ((vc + p1 + p2 + p3 + p4) + rest))))
  {
    Regroup5(vo, d, sp, d, vc);
  }

  /** The header reads back as a `size` by `size` viewBox. */
  lemma ReadHeaderOfHeader(size: nat, rest: string)
    ensures ReadHeader(Header(size) + rest) == Some((size, size, rest))
  {
    var ds := NatToString(size);
    var tail := ViewBoxClose + AspectRatio + TagEnd + Background + PathOpen;
    RegroupHeader(SvgOpen, ViewBoxOpen, ds, " ", ViewBoxClose, AspectRatio, TagEnd, Background, PathOpen, rest);
    ExpectLiteral(SvgOpen + ViewBoxOpen, ds + (" " + (ds + (tail + rest))));
    ParseNatToString(size, " " + (ds + (tail + rest)));
    ExpectLiteral(" ", ds + (tail + rest));
    ParseNatToString(size, tail + rest);
    ExpectLiteral(tail, rest);
  }

  /** A header with a viewBox of `w` by `h` reads back as those two numbers. */
  lemma ReadHeaderOfViewBox(w: nat, h: nat, rest: string)
    ensures var tail := ViewBoxClose + AspectRatio + TagEnd + Background + PathOpen;
            ReadHeader((SvgOpen + ViewBoxOpen) + (NatToString(w) + (" " + (NatToString(h) + (tail + rest)))))
              == Some((w, h, rest))
  {
    var tail := ViewBoxClose + AspectRatio + TagEnd + Background + PathOpen;
    ExpectLiteral(SvgOpen + ViewBoxOpen, NatToString(w) + (" " + (NatToString(h) + (tail + rest))));
    ParseNatToString(w, " " + (NatToString(h) + (tail + rest)));
    ExpectLiteral(" ", NatToString(h) + (tail + rest));
    ParseNatToString(h, tail + rest);
    ExpectLiteral(tail, rest);
  }

  /** The reader checks the format, not the origin: it accepts a viewBox of
      any width and height, also one no `Document` has (width != height). */
  lemma ReaderAcceptsAnyCanvas(w: nat, h: nat)
    ensures var tail := ViewBoxClose + AspectRatio + TagEnd + Background + PathOpen;
            ReadSvg((SvgOpen + ViewBoxOpen) + (NatToString(w) + (" " + (NatToString(h) + (tail + Trailer())))))
              == Some(Picture(w, h, []))
  {
    var tail := ViewBoxClose + AspectRatio + TagEnd + Background + PathOpen;
    var doc := (SvgOpen + ViewBoxOpen) + (NatToString(w) + (" " + (NatToString(h) + (tail + Trailer()))));
    ReadHeaderOfViewBox(w, h, Trailer());
    assert "" + Trailer() == Trailer();
    ReadSvgOfParts(doc, w, h, "", []);
  }

  /** Reading the document back gives the canvas size on both axes and the
      squares of the dark modules, in the order of `DarkCells`. */
  lemma ReadSvgOfDocument(qr: QrCode, cellSize: Option<nat>, margin: Option<nat>)
    requires WellFormed(qr)
    ensures var cs := ResolveCellSize(cellSize);
            var mg := ResolveMargin(margin, cs);
            var size := CanvasSize(qr.matrixSize, mg);
            ReadSvg(Document(qr, cellSize, margin)) == Some(Picture(size, size, SquaresOf(DarkCells(qr), cs, mg)))
  {
    var cs := ResolveCellSize(cellSize);
    var mg := ResolveMargin(margin, cs);
    var size := CanvasSize(qr.matrixSize, mg);
    var path := PathData(qr, cs, mg);
    var body := path + Trailer();
    DocumentParts(qr, cellSize, margin);
    ReadHeaderOfHeader(size, body);
    ReadPathOfPathFor(DarkCells(qr), cs, mg);
    ReadSvgOfParts(Document(qr, cellSize, margin), size, size, path, SquaresOf(DarkCells(qr), cs, mg));
  }

  lemma DocumentParts(qr: QrCode, cellSize: Option<nat>, margin: Option<nat>)
    requires WellFormed(qr)
    ensures var cs := ResolveCellSize(cellSize);
            var mg := ResolveMargin(margin, cs);
            Document(qr, cellSize, margin)
              == Header(CanvasSize(qr.matrixSize, mg)) + (PathData(qr, cs, mg) + Trailer())
  {
    var cs := ResolveCellSize(cellSize);
    var mg := ResolveMargin(margin, cs);
    AppendAssoc(Header(CanvasSize(qr.matrixSize, mg)), PathData(qr, cs, mg), Trailer());
  }

  lemma ReadSvgOfParts(doc: string, width: nat, height: nat, path: string, squares: seq<Square>)
    requires ReadHeader(doc) == Some((width, height, path + Trailer()))
    requires ReadPath(path) == Some(squares)
    ensures ReadSvg(doc) == Some(Picture(width, height, squares))
  {
    SplitSuffix(path, Trailer());
  }

  lemma SplitSuffix(a: string, b: string)
    ensures (a + b)[|a + b| - |b|..] == b && (a + b)[..|a + b| - |b|] == a
  {
    assert (a + b)[|a|..] == b;
    assert (a + b)[..|a|] == a;
  }

  // ---------------------------------------------------------------------
  // What the document draws

  /** The square at the offsets of module (r, c) is drawn exactly when that
      module is dark: x comes from the column and y from the row. */
  lemma SquaresMembership(qr: QrCode, cellSize: nat, margin: nat, r: nat, c: nat)
    requires WellFormed(qr) && cellSize >= 1
    requires r < qr.matrixSize && c < qr.matrixSize
    ensures Square(Offset(c, cellSize, margin), Offset(r, cellSize, margin), cellSize) in SquaresOf(DarkCells(qr), cellSize, margin)
            <==> qr.matrix[r][c]
  {
    var cells := DarkCells(qr);
    var squares := SquaresOf(cells, cellSize, margin);
    var target := Square(Offset(c, cellSize, margin), Offset(r, cellSize, margin), cellSize);
    DarkCellsMembership(qr, Cell(r, c));
    if qr.matrix[r][c] {
      var i :| 0 <= i < |cells| && cells[i] == Cell(r, c);
      assert squares[i] == target;
    }
    if target in squares {
      var i :| 0 <= i < |squares| && squares[i] == target;
      var cell := cells[i];
      OffsetIncreasing(cell.col, c, cellSize, margin);
      OffsetIncreasing(cell.row, r, cellSize, margin);
      assert cell == Cell(r, c);
    }
  }

  /** The squares come top to bottom, and left to right along a row. */
  lemma SquaresRowMajor(qr: QrCode, cellSize: nat, margin: nat)
    requires WellFormed(qr) && cellSize >= 1
    ensures var squares := SquaresOf(DarkCells(qr), cellSize, margin);
            forall i, j :: 0 <= i < j < |squares| ==>
              squares[i].y < squares[j].y || (squares[i].y == squares[j].y && squares[i].x < squares[j].x)
  {
    var cells := DarkCells(qr);
    var squares := SquaresOf(cells, cellSize, margin);
    DarkCellsRowMajor(qr);
    forall i, j | 0 <= i < j < |squares|
      ensures squares[i].y < squares[j].y || (squares[i].y == squares[j].y && squares[i].x < squares[j].x)
    {
      assert Precedes(cells[i], cells[j]);
      OffsetIncreasing(cells[i].row, cells[j].row, cellSize, margin);
      OffsetIncreasing(cells[i].col, cells[j].col, cellSize, margin);
    }
  }

  /** Everything the document shows, read back from the text: a square
      canvas of side `(matrixSize + margin) * 2` whatever the cell size, one
      square of side `cellSize` per dark module, at the module's offsets, in
      row-major order. */
  lemma DocumentPicture(qr: QrCode, cellSize: Option<nat>, margin: Option<nat>) returns (pic: Picture)
    requires WellFormed(qr)
    ensures ReadSvg(Document(qr, cellSize, margin)) == Some(pic)
    ensures var mg := ResolveMargin(margin, ResolveCellSize(cellSize));
            pic.width == (qr.matrixSize + mg) * 2 && pic.height == (qr.matrixSize + mg) * 2
    ensures |pic.squares| == |DarkSet(qr)|
    ensures forall i :: 0 <= i < |pic.squares| ==> pic.squares[i].side == ResolveCellSize(cellSize)
    ensures var cs := ResolveCellSize(cellSize);
            var mg := ResolveMargin(margin, cs);
            forall r, c :: 0 <= r < qr.matrixSize && 0 <= c < qr.matrixSize ==>
              (Square(Offset(c, cs, mg), Offset(r, cs, mg), cs) in pic.squares <==> qr.matrix[r][c])
    ensures forall i, j :: 0 <= i < j < |pic.squares| ==>
              pic.squares[i].y < pic.squares[j].y ||
              (pic.squares[i].y == pic.squares[j].y && pic.squares[i].x < pic.squares[j].x)
  {
    var cs := ResolveCellSize(cellSize);
    var mg := ResolveMargin(margin, cs);
    pic := Picture(CanvasSize(qr.matrixSize, mg), CanvasSize(qr.matrixSize, mg), SquaresOf(DarkCells(qr), cs, mg));
    ReadSvgOfDocument(qr, cellSize, margin);
    PictureOfCode(qr, cs, mg);
  }

  /** The picture meant for a code: one square per dark module, at its
      offsets, in row-major order. */
  lemma PictureOfCode(qr: QrCode, cellSize: nat, margin: nat)
    requires WellFormed(qr) && cellSize >= 1
    ensures var squares := SquaresOf(DarkCells(qr), cellSize, margin);
            |squares| == |DarkSet(qr)| &&
            (forall i :: 0 <= i < |squares| ==> squares[i].side == cellSize) &&
            (forall r, c :: 0 <= r < qr.matrixSize && 0 <= c < qr.matrixSize ==>
              (Square(Offset(c, cellSize, margin), Offset(r, cellSize, margin), cellSize) in squares <==> qr.matrix[r][c])) &&
            (forall i, j :: 0 <= i < j < |squares| ==>
              squares[i].y < squares[j].y || (squares[i].y == squares[j].y && squares[i].x < squares[j].x))
  {
    DarkCellsCount(qr);
    SquaresRowMajor(qr, cellSize, margin);
    forall r, c | 0 <= r < qr.matrixSize && 0 <= c < qr.matrixSize
      ensures (Square(Offset(c, cellSize, margin), Offset(r, cellSize, margin), cellSize)
                 in SquaresOf(DarkCells(qr), cellSize, margin)) <==> qr.matrix[r][c]
    {
      SquaresMembership(qr, cellSize, margin, r, c);
    }
  }
}
