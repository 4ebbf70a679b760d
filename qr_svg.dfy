/** The QR-matrix-to-SVG serialiser `createSvg`: it resolves the geometric
    defaults, writes a fixed SVG header, one square subpath per dark module in
    row-major order, and a fixed trailer. */
module QrSvg {
  import opened Wrappers
  import opened Decimal

  /** The encoder object as the serialiser uses it: its side length and its
      module matrix, indexed `matrix[row][column]`. */
  datatype QrCode = QrCode(matrixSize: nat, matrix: seq<seq<bool>>)

  /** A module position. */
  datatype Cell = Cell(row: nat, col: nat)

  /** The matrix is square with side `matrixSize`. */
  predicate WellFormed(qr: QrCode) {
    |qr.matrix| == qr.matrixSize &&
    forall r :: 0 <= r < |qr.matrix| ==> |qr.matrix[r]| == qr.matrixSize
  }

  // ---------------------------------------------------------------------
  // Default resolution and canvas size

  /** `cellSize || 2`: an absent or zero cell size becomes 2. */
  function ResolveCellSize(cellSize: Option<nat>): (s: nat)
    ensures s >= 1
    ensures cellSize.None? || cellSize.value == 0 ==> s == 2
    ensures cellSize.Some? && cellSize.value != 0 ==> s == cellSize.value
  {
    if cellSize.None? || cellSize.value == 0 then 2 else cellSize.value
  }

  /** An undefined margin becomes four cells; any given margin, 0 included, is kept. */
  function ResolveMargin(margin: Option<nat>, cellSize: nat): (m: nat)
    ensures margin.None? ==> m == 4 * cellSize
    ensures margin.Some? ==> m == margin.value
  {
    if margin.None? then cellSize * 4 else margin.value
  }

  /** Side of the square canvas; the cell size takes no part in it. */
  function CanvasSize(matrixSize: nat, margin: nat): nat {
    (matrixSize + margin) * 2
  }

  // ---------------------------------------------------------------------
  // Fixed text

  const SvgOpen: string := "<svg version=\"1.1\" xmlns=\"http://www.w3.org/2000/svg\""
  const ViewBoxOpen: string := " viewBox=\"0 0 "
  const ViewBoxClose: string := "\" "
  const AspectRatio: string := " preserveAspectRatio=\"xMinYMin meet\""
  const TagEnd: string := ">"
  const Background: string := "<rect width=\"100%\" height=\"100%\" fill=\"white\" cx=\"0\" cy=\"0\"/>"
  const PathOpen: string := "<path d=\""
  const PathClose: string := "\" stroke=\"transparent\" fill=\"black\"/>"
  const SvgClose: string := "</svg>"

  function ViewBox(size: nat): string {
    ViewBoxOpen + NatToString(size) + " " + NatToString(size) + ViewBoxClose
  }

  /** Everything written before the path data. */
  function Header(size: nat): string {
    SvgOpen + ViewBox(size) + AspectRatio + TagEnd + Background + PathOpen
  }

  /** Everything written after the path data. */
  function Trailer(): string {
    PathClose + SvgClose
  }

  /** The relative square drawn after each move-to: right, down, left, up, close. */
  function Rect(cellSize: nat): string {
    "l" + NatToString(cellSize) + ",0 0," + NatToString(cellSize) +
    " -" + NatToString(cellSize) + ",0 0,-" + NatToString(cellSize) + "z "
  }

  // ---------------------------------------------------------------------
  // Path data

  /** Offset of the `i`-th row or column from the canvas edge. */
  function Offset(i: nat, cellSize: nat, margin: nat): nat {
    i * cellSize + margin
  }

  /** Horizontal offset of a module: from its column. */
  function ModuleX(cell: Cell, cellSize: nat, margin: nat): nat {
    Offset(cell.col, cellSize, margin)
  }

  /** Vertical offset of a module: from its row. */
  function ModuleY(cell: Cell, cellSize: nat, margin: nat): nat {
    Offset(cell.row, cellSize, margin)
  }

  /** A move to (x, y) followed by `rect`. */
  function Subpath(x: nat, y: nat, rect: string): string {
    "M" + NatToString(x) + "," + NatToString(y) + rect
  }

  /** The subpath of one dark module: a move to its corner, then `rect`. */
  function CellSubpath(cell: Cell, cellSize: nat, margin: nat, rect: string): string {
    Subpath(ModuleX(cell, cellSize, margin), ModuleY(cell, cellSize, margin), rect)
  }

  /** The subpaths of `cells`, in the order given. */
  function PathFor(cells: seq<Cell>, cellSize: nat, margin: nat, rect: string): string {
    if cells == [] then ""
    else CellSubpath(cells[0], cellSize, margin, rect) + PathFor(cells[1..], cellSize, margin, rect)
  }

  /** Dark modules among the first `c` columns of row `r` of `m`, left to right. */
  function RowCells(m: seq<seq<bool>>, r: nat, c: nat): seq<Cell>
    requires r < |m| && c <= |m[r]|
  {
    if c == 0 then []
    else RowCells(m, r, c - 1) + (if m[r][c - 1] then [Cell(r, c - 1)] else [])
  }

  /** Dark modules among the first `k` rows of `m`, in row-major order. */
  function GridCells(m: seq<seq<bool>>, k: nat): seq<Cell>
    requires k <= |m|
  {
    if k == 0 then [] else GridCells(m, k - 1) + RowCells(m, k - 1, |m[k - 1]|)
  }

  /** All dark modules of the matrix, in row-major order. */
  function DarkCells(qr: QrCode): seq<Cell>
    requires WellFormed(qr)
  {
    GridCells(qr.matrix, qr.matrixSize)
  }

  /** The set of dark module positions, independent of any order. */
  ghost function DarkSet(qr: QrCode): set<Cell>
    requires WellFormed(qr)
  {
    set r: nat, c: nat | r < qr.matrixSize && c < qr.matrixSize && qr.matrix[r][c] :: Cell(r, c)
  }

  /** The `d` attribute of the path element. */
  function PathData(qr: QrCode, cellSize: nat, margin: nat): string
    requires WellFormed(qr)
  {
    PathFor(DarkCells(qr), cellSize, margin, Rect(cellSize))
  }

  /** The document `createSvg` returns, as a function of its inputs. */
  function Document(qr: QrCode, cellSize: Option<nat>, margin: Option<nat>): string
    requires WellFormed(qr)
  {
    var cs := ResolveCellSize(cellSize);
    var mg := ResolveMargin(margin, cs);
    Header(CanvasSize(qr.matrixSize, mg)) + PathData(qr, cs, mg) + Trailer()
  }

  // ---------------------------------------------------------------------
  // The serialiser

  /** `createSvg`: resolves the defaults, computes the canvas size and the
      square suffix, then writes the header, the subpaths of the dark modules
      and the trailer. */
  method CreateSvg(qr: QrCode, cellSize: Option<nat>, margin: Option<nat>) returns (svg: string)
    requires WellFormed(qr)
    ensures svg == Document(qr, cellSize, margin)
  {
    var cs := ResolveCellSize(cellSize);
    var mg := ResolveMargin(margin, cs);
    var size := CanvasSize(qr.matrixSize, mg);
    var rect := Rect(cs);

    svg := "";
    svg := svg + SvgOpen;
    svg := svg + "";
    svg := svg + ViewBox(size);
    svg := svg + AspectRatio;
    svg := svg + "";
    svg := svg + TagEnd;
    svg := svg + Background;
    svg := svg + PathOpen;
    HeaderPieces(SvgOpen, ViewBox(size), AspectRatio, TagEnd, Background, PathOpen);
    ghost var header := Header(size);
    assert svg == header;

    svg := AppendModules(svg, qr, cs, mg, rect);

    svg := svg + PathClose;
    svg := svg + SvgClose;
    AppendAssoc(header + PathData(qr, cs, mg), PathClose, SvgClose);
  }

  /** The row loop of `createSvg`: appends to `acc` the subpath of every dark
      module, rows top to bottom. */
  method AppendModules(acc: string, qr: QrCode, cellSize: nat, margin: nat, rect: string) returns (svg: string)
    requires WellFormed(qr)
    ensures svg == acc + PathFor(DarkCells(qr), cellSize, margin, rect)
  {
    svg := acc;
    AppendNothing(acc);
    var r := 0;
    while r < qr.matrixSize
      invariant 0 <= r <= qr.matrixSize
      invariant svg == acc + PathFor(GridCells(qr.matrix, r), cellSize, margin, rect)
    {
      var mr := Offset(r, cellSize, margin);
      svg := AppendRow(svg, qr, r, mr, cellSize, margin, rect);
      NextRow(acc, qr.matrix, r, cellSize, margin, rect);
      r := r + 1;
    }
  }

  /** The column loop of `createSvg` for row `r`, whose offset is `mr`:
      appends the subpath of every dark module of the row, left to right. */
  method AppendRow(acc: string, qr: QrCode, r: nat, mr: nat, cellSize: nat, margin: nat, rect: string)
    returns (svg: string)
    requires WellFormed(qr) && r < qr.matrixSize
    requires mr == Offset(r, cellSize, margin)
    ensures svg == acc + PathFor(RowCells(qr.matrix, r, qr.matrixSize), cellSize, margin, rect)
  {
    ghost var done: seq<Cell> := [];
    svg := acc;
    AppendNothing(acc);
    var c := 0;
    while c < qr.matrixSize
      invariant 0 <= c <= qr.matrixSize
      invariant done == RowCells(qr.matrix, r, c)
      invariant svg == acc + PathFor(done, cellSize, margin, rect)
    {
      if qr.matrix[r][c] {
        var mc := Offset(c, cellSize, margin);
        AppendSubpath(acc, done, Cell(r, c), cellSize, margin, rect);
        done := done + [Cell(r, c)];
        svg := svg + Subpath(mc, mr, rect);
      }
      c := c + 1;
    }
  }

  // ---------------------------------------------------------------------
  // Properties

  lemma AppendNothing(s: string)
    ensures s + "" == s
  {
  }

  /** After row `r`, the text holds the subpaths of the first `r + 1` rows. */
  lemma NextRow(acc: string, m: seq<seq<bool>>, r: nat, cellSize: nat, margin: nat, rect: string)
    requires r < |m|
    ensures acc + PathFor(GridCells(m, r), cellSize, margin, rect) + PathFor(RowCells(m, r, |m[r]|), cellSize, margin, rect)
         == acc + PathFor(GridCells(m, r + 1), cellSize, margin, rect)
  {
    PathForAppend(GridCells(m, r), RowCells(m, r, |m[r]|), cellSize, margin, rect);
    AppendAssoc(acc, PathFor(GridCells(m, r), cellSize, margin, rect),
                PathFor(RowCells(m, r, |m[r]|), cellSize, margin, rect));
  }

  /** The subpaths of two runs of modules, one after the other. */
  lemma {:induction false} PathForAppend(a: seq<Cell>, b: seq<Cell>, cellSize: nat, margin: nat, rect: string)
    ensures PathFor(a + b, cellSize, margin, rect) == PathFor(a, cellSize, margin, rect) + PathFor(b, cellSize, margin, rect)
    decreases |a|
  {
    if a == [] {
      assert a + b == b;
    } else {
      assert (a + b)[1..] == a[1..] + b;
      PathForAppend(a[1..], b, cellSize, margin, rect);
      AppendAssoc(CellSubpath(a[0], cellSize, margin, rect), PathFor(a[1..], cellSize, margin, rect),
                  PathFor(b, cellSize, margin, rect));
    }
  }

  /** Appending the text the column loop writes for a dark module extends the
      path by that module's subpath. */
  lemma AppendSubpath(prefix: string, done: seq<Cell>, cell: Cell, cellSize: nat, margin: nat, rect: string)
    ensures prefix + PathFor(done, cellSize, margin, rect) +
              Subpath(Offset(cell.col, cellSize, margin), Offset(cell.row, cellSize, margin), rect)
         == prefix + PathFor(done + [cell], cellSize, margin, rect)
  {
    PathForSnoc(done, cell, cellSize, margin, rect);
    AppendAssoc(prefix, PathFor(done, cellSize, margin, rect), CellSubpath(cell, cellSize, margin, rect));
  }

  lemma AppendAssoc(a: string, b: string, c: string)
    ensures a + b + c == a + (b + c)
  {
  }

  /** The header as the serialiser writes it, with its two empty appends. */
  lemma HeaderPieces(a: string, b: string, c: string, d: string, e: string, f: string)
    ensures "" + a + "" + b + c + "" + d + e + f == a + b + c + d + e + f
  {
    assert "" + a + "" == a;
    assert a + b + c + "" == a + b + c;
  }

  lemma {:induction false} PathForSnoc(cells: seq<Cell>, x: Cell, cellSize: nat, margin: nat, rect: string)
    ensures PathFor(cells + [x], cellSize, margin, rect) == PathFor(cells, cellSize, margin, rect) + CellSubpath(x, cellSize, margin, rect)
    decreases |cells|
  {
    if cells != [] {
      assert (cells + [x])[1..] == cells[1..] + [x];
      PathForSnoc(cells[1..], x, cellSize, margin, rect);
    }
  }

  // ---------------------------------------------------------------------
  // Which modules get a subpath, and in which order

  /** With a positive cell size, offsets are strictly increasing in the index. */
  lemma OffsetIncreasing(i: nat, j: nat, cellSize: nat, margin: nat)
    requires cellSize >= 1
    ensures i < j <==> Offset(i, cellSize, margin) < Offset(j, cellSize, margin)
    ensures i == j <==> Offset(i, cellSize, margin) == Offset(j, cellSize, margin)
  {
    if i < j {
      MulStrictlyIncreasing(i, j, cellSize);
    } else if j < i {
      MulStrictlyIncreasing(j, i, cellSize);
    }
  }

  lemma {:induction false} MulStrictlyIncreasing(a: nat, b: nat, k: nat)
    requires a < b && k >= 1
    ensures a * k < b * k
    decreases b - a
  {
    assert b * k == (b - 1) * k + k;
    if a < b - 1 {
      MulStrictlyIncreasing(a, b - 1, k);
    }
  }

  lemma {:induction false} RowCellsMembership(m: seq<seq<bool>>, r: nat, c: nat, cell: Cell)
    requires r < |m| && c <= |m[r]|
    ensures cell in RowCells(m, r, c) <==> cell.row == r && cell.col < c && m[r][cell.col]
    decreases c
  {
    if c > 0 {
      RowCellsMembership(m, r, c - 1, cell);
    }
  }

  lemma {:induction false} GridCellsMembership(m: seq<seq<bool>>, k: nat, cell: Cell)
    requires k <= |m|
    ensures cell in GridCells(m, k) <==> cell.row < k && cell.col < |m[cell.row]| && m[cell.row][cell.col]
    decreases k
  {
    if k > 0 {
      GridCellsMembership(m, k - 1, cell);
      RowCellsMembership(m, k - 1, |m[k - 1]|, cell);
    }
  }

  lemma GridCellsRows(m: seq<seq<bool>>, k: nat, i: nat)
    requires k <= |m|
    requires i < |GridCells(m, k)|
    ensures GridCells(m, k)[i].row < k
  {
    GridCellsMembership(m, k, GridCells(m, k)[i]);
  }

  lemma RowCellsRow(m: seq<seq<bool>>, r: nat, c: nat, j: nat)
    requires r < |m| && c <= |m[r]|
    requires j < |RowCells(m, r, c)|
    ensures RowCells(m, r, c)[j].row == r && RowCells(m, r, c)[j].col < c
  {
    RowCellsMembership(m, r, c, RowCells(m, r, c)[j]);
  }

  /** A module gets a subpath exactly when it is dark. */
  lemma DarkCellsMembership(qr: QrCode, cell: Cell)
    requires WellFormed(qr)
    ensures cell in DarkCells(qr) <==>
              cell.row < qr.matrixSize && cell.col < qr.matrixSize && qr.matrix[cell.row][cell.col]
  {
    GridCellsMembership(qr.matrix, qr.matrixSize, cell);
  }

  /** Row-major order on module positions. */
  predicate Precedes(a: Cell, b: Cell) {
    a.row < b.row || (a.row == b.row && a.col < b.col)
  }

  predicate RowMajor(cells: seq<Cell>) {
    forall i, j :: 0 <= i < j < |cells| ==> Precedes(cells[i], cells[j])
  }

  lemma RowMajorAppend(a: seq<Cell>, b: seq<Cell>)
    requires RowMajor(a) && RowMajor(b)
    requires forall i, j :: 0 <= i < |a| && 0 <= j < |b| ==> Precedes(a[i], b[j])
    ensures RowMajor(a + b)
  {
    forall i, j | 0 <= i < j < |a + b|
      ensures Precedes((a + b)[i], (a + b)[j])
    {
      if j < |a| {
        assert Precedes(a[i], a[j]);
      } else if i < |a| {
        assert Precedes(a[i], b[j - |a|]);
      } else {
        assert Precedes(b[i - |a|], b[j - |a|]);
      }
    }
  }

  lemma {:induction false} RowCellsRowMajor(m: seq<seq<bool>>, r: nat, c: nat)
    requires r < |m| && c <= |m[r]|
    ensures RowMajor(RowCells(m, r, c))
    decreases c
  {
    if c > 0 {
      var done := RowCells(m, r, c - 1);
      RowCellsRowMajor(m, r, c - 1);
      forall i | 0 <= i < |done|
        ensures done[i].row == r && done[i].col < c - 1
      {
        RowCellsRow(m, r, c - 1, i);
      }
      RowMajorAppend(done, if m[r][c - 1] then [Cell(r, c - 1)] else []);
    }
  }

  lemma {:induction false} GridCellsRowMajor(m: seq<seq<bool>>, k: nat)
    requires k <= |m|
    ensures RowMajor(GridCells(m, k))
    decreases k
  {
    if k > 0 {
      var done := GridCells(m, k - 1);
      var last := RowCells(m, k - 1, |m[k - 1]|);
      GridCellsRowMajor(m, k - 1);
      RowCellsRowMajor(m, k - 1, |m[k - 1]|);
      forall i, j | 0 <= i < |done| && 0 <= j < |last|
        ensures Precedes(done[i], last[j])
      {
        GridCellsRows(m, k - 1, i);
        RowCellsRow(m, k - 1, |m[k - 1]|, j);
      }
      RowMajorAppend(done, last);
    }
  }

  /** Subpaths come row by row, and left to right within a row. */
  lemma DarkCellsRowMajor(qr: QrCode)
    requires WellFormed(qr)
    ensures RowMajor(DarkCells(qr))
  {
    GridCellsRowMajor(qr.matrix, qr.matrixSize);
  }

  lemma {:induction false} RowMajorCardinality(cells: seq<Cell>)
    requires RowMajor(cells)
    ensures |set x | x in cells| == |cells|
    decreases |cells|
  {
    if cells != [] {
      var init, last := cells[..|cells| - 1], cells[|cells| - 1];
      assert RowMajor(init);
      RowMajorCardinality(init);
      assert cells == init + [last];
      assert (set x | x in cells) == (set x | x in init) + {last};
      assert last !in init by {
        forall i | 0 <= i < |init| ensures init[i] != last {
          assert Precedes(cells[i], cells[|cells| - 1]);
        }
      }
    }
  }

  /** There are as many subpaths as dark modules. */
  lemma DarkCellsCount(qr: QrCode)
    requires WellFormed(qr)
    ensures |DarkCells(qr)| == |DarkSet(qr)|
  {
    DarkCellsRowMajor(qr);
    RowMajorCardinality(DarkCells(qr));
    forall x: Cell
      ensures x in DarkCells(qr) <==> x in DarkSet(qr)
    {
      DarkCellsMembership(qr, x);
    }
    assert (set x | x in DarkCells(qr)) == DarkSet(qr);
  }

  // ---------------------------------------------------------------------
  // The path text

  /** Number of occurrences of `ch` in `s`. */
  function CountChar(s: string, ch: char): nat {
    if s == [] then 0 else (if s[0] == ch then 1 else 0) + CountChar(s[1..], ch)
  }

  lemma {:induction false} CountCharAppend(a: string, b: string, ch: char)
    ensures CountChar(a + b, ch) == CountChar(a, ch) + CountChar(b, ch)
    decreases |a|
  {
    if a == [] {
      assert a + b == b;
    } else {
      assert (a + b)[1..] == a[1..] + b;
      CountCharAppend(a[1..], b, ch);
    }
  }

  lemma {:induction false} CountCharAbsent(s: string, ch: char)
    requires forall i :: 0 <= i < |s| ==> s[i] != ch
    ensures CountChar(s, ch) == 0
    decreases |s|
  {
    if s != [] {
      CountCharAbsent(s[1..], ch);
    }
  }

  /** The square suffix holds no move-to command. */
  lemma RectHasNoMove(cellSize: nat)
    ensures CountChar(Rect(cellSize), 'M') == 0
  {
    var d := NatToString(cellSize);
    assert forall i :: 0 <= i < |d| ==> d[i] != 'M';
    CountCharAbsent(Rect(cellSize), 'M');
  }

  lemma SubpathMoveCount(x: nat, y: nat, rect: string)
    requires CountChar(rect, 'M') == 0
    ensures CountChar(Subpath(x, y, rect), 'M') == 1
  {
    var dx, dy := NatToString(x), NatToString(y);
    CountCharAbsent(dx, 'M');
    CountCharAbsent(dy, 'M');
    CountCharAppend("M" + dx + "," + dy, rect, 'M');
    CountCharAppend("M" + dx + ",", dy, 'M');
    CountCharAppend("M" + dx, ",", 'M');
    CountCharAppend("M", dx, 'M');
  }

  lemma {:induction false} PathForMoveCount(cells: seq<Cell>, cellSize: nat, margin: nat, rect: string)
    requires CountChar(rect, 'M') == 0
    ensures CountChar(PathFor(cells, cellSize, margin, rect), 'M') == |cells|
    decreases |cells|
  {
    if cells != [] {
      var c := cells[0];
      SubpathMoveCount(ModuleX(c, cellSize, margin), ModuleY(c, cellSize, margin), rect);
      CountCharAppend(CellSubpath(c, cellSize, margin, rect), PathFor(cells[1..], cellSize, margin, rect), 'M');
      PathForMoveCount(cells[1..], cellSize, margin, rect);
    }
  }

  /** The path data holds one move-to command per dark module. */
  lemma PathDataMoveCount(qr: QrCode, cellSize: nat, margin: nat)
    requires WellFormed(qr)
    ensures CountChar(PathData(qr, cellSize, margin), 'M') == |DarkSet(qr)|
  {
    RectHasNoMove(cellSize);
    PathForMoveCount(DarkCells(qr), cellSize, margin, Rect(cellSize));
    DarkCellsCount(qr);
  }

  /** The path data is empty exactly when every module is light. */
  lemma PathDataEmpty(qr: QrCode, cellSize: nat, margin: nat)
    requires WellFormed(qr)
    ensures PathData(qr, cellSize, margin) == "" <==>
              forall r, c :: 0 <= r < qr.matrixSize && 0 <= c < qr.matrixSize ==> !qr.matrix[r][c]
  {
    var cells := DarkCells(qr);
    if cells == [] {
      forall r, c | 0 <= r < qr.matrixSize && 0 <= c < qr.matrixSize
        ensures !qr.matrix[r][c]
      {
        DarkCellsMembership(qr, Cell(r, c));
      }
    } else {
      var x := cells[0];
      DarkCellsMembership(qr, x);
      assert PathData(qr, cellSize, margin)[0] == 'M';
    }
  }

  /** The document is the fixed header, the path data and the fixed trailer. */
  lemma DocumentLayout(qr: QrCode, cellSize: Option<nat>, margin: Option<nat>)
    requires WellFormed(qr)
    ensures var doc := Document(qr, cellSize, margin);
            var cs := ResolveCellSize(cellSize);
            var mg := ResolveMargin(margin, cs);
            var header := Header(CanvasSize(qr.matrixSize, mg));
            |header| + |Trailer()| <= |doc| &&
            doc[..|header|] == header &&
            doc[|doc| - |Trailer()|..] == Trailer() &&
            doc[|header|..|doc| - |Trailer()|] == PathData(qr, cs, mg)
  {
  }
}
