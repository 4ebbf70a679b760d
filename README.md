# QR matrix to SVG serialiser

This project models `createSvg` from `src/lib/qr-2-svg.ts`. The function takes a
QR code object with a square boolean module matrix. It returns an SVG document
as one string:

- a fixed opening `<svg …>` tag with a square `viewBox` of side
  `(matrixSize + margin) * 2`;
- a white background rectangle;
- one `<path>` element whose `d` attribute holds a move-to `M<x>,<y>` and a
  relative square `l<s>,0 0,<s> -<s>,0 0,-<s>z ` for every dark module, in
  row-major order;
- a fixed trailer.

The model has four modules:

- `Decimal` writes a natural number in full decimal, with no leading zero.
  JavaScript's `'…' + n` writes a non-negative integer the same way only
  below 10^21; from there it switches to exponent notation, which is not
  modelled. `Decimal` also has a reader for that text, and proves the round
  trip.
- `QrSvg` holds the data model and the default resolution (`cellSize || 2`; an
  undefined margin becomes `4 * cellSize`, and an explicit `0` is kept). It
  defines the fixed text, and the document as a function of the inputs
  (`Document`).
  - The serialiser itself is imperative. `CreateSvg` appends the pieces one by
    one, just as the source does, including its two empty appends.
  - The row loop is `AppendModules` and the column loop is `AppendRow`. Together
    they are the nested loop of lines 34-42. They keep the row offset `mr`
    computed in the outer loop and the column offset `mc` in the inner one.
  - Each method is proved against the functional definition. The lemmas state
    which modules get a subpath, in what order, how many `M` commands there
    are, and where the header and trailer sit.
- `SvgReader` is the partner of the writer. It reads back the canvas size and
  the list of drawn squares from a document. The lemmas prove that reading
  `Document(qr, cellSize, margin)` gives exactly:
  - a canvas of side `(matrixSize + margin) * 2`;
  - one square of side `cellSize` at `(col * cellSize + margin, row * cellSize + margin)`
    for each dark module, and none elsewhere;
  - the squares in row-major order.
- `Scenarios` works through small concrete cases: an all-light code with the
  defaults, one dark module with cell size 2 and margin 8, and cell size 5
  with margin 0.

The canvas size ignores the cell size. It is modelled as written;
`SvgReader.DocumentPicture` states it in exactly that form.

Line 39 joins `mr` directly to `rect`, so no space separates the move-to
from the `l`: with cell size 5 and margin 0 the subpath is
`M0,0l5,0 0,5 -5,0 0,-5z `. See `Scenarios.FiveAtOrigin` and
`Scenarios.ExplicitParameters`.

## Model

| member | source | states |
|---|---|---|
| QrSvg.ResolveCellSize | src/lib/qr-2-svg.ts:16 | An absent or zero cell size becomes 2, any other value is kept, and the result is at least 1 |
| QrSvg.ResolveMargin | src/lib/qr-2-svg.ts:17 | An undefined margin becomes four times the cell size, and any given margin, 0 included, is kept |
| QrSvg.CreateSvg | src/lib/qr-2-svg.ts:15-48 | The returned string equals `Document`: the header with the canvas size of the resolved margin, then the path data of the dark modules, then the trailer |
| QrSvg.AppendModules | src/lib/qr-2-svg.ts:34-42 | The row loop appends to the text so far exactly the subpaths of all dark modules of the matrix, row by row |
| QrSvg.AppendRow | src/lib/qr-2-svg.ts:36-41 | The column loop for row `r` appends exactly the subpaths of the row's dark modules, left to right, each a move-to from the column and row offsets followed by the square suffix |
| QrSvg.DarkCellsMembership | src/lib/qr-2-svg.ts:34-40 | A position is in the list of drawn modules if and only if it lies inside the matrix and its module is dark |
| QrSvg.DarkCellsRowMajor | src/lib/qr-2-svg.ts:34-36 | The drawn modules come in strictly row-major order: rows top to bottom, and columns left to right within a row |
| QrSvg.DarkCellsCount | src/lib/qr-2-svg.ts:34-40 | The list of drawn modules is as long as the set of dark positions, so no module is drawn twice |
| QrSvg.OffsetIncreasing | src/lib/qr-2-svg.ts:35-38 | With a positive cell size, offsets `i * cellSize + margin` strictly increase with the index and are equal only for equal indices |
| QrSvg.RectHasNoMove | src/lib/qr-2-svg.ts:22-23 | The square suffix holds no `M` |
| QrSvg.PathDataMoveCount | src/lib/qr-2-svg.ts:34-42 | The path data holds exactly as many `M` commands as the matrix has dark modules |
| QrSvg.PathDataEmpty | src/lib/qr-2-svg.ts:34-42 | The path data is empty if and only if every module is light |
| QrSvg.DocumentLayout | src/lib/qr-2-svg.ts:25-45 | The fixed header is a prefix of the document and the fixed trailer a suffix, whatever the matrix; what lies between them is exactly the path data |
| Decimal.NatToString | src/lib/qr-2-svg.ts:22-23 | The decimal text of a number is non-empty, made of digits, and has no leading zero unless the number is 0 |
| Decimal.ParseNatToString | src/lib/qr-2-svg.ts:39 | Reading the decimal text of `n` followed by a non-digit gives back `n` and the rest |
| Decimal.NatToStringInjective | src/lib/qr-2-svg.ts:39 | Distinct numbers have distinct decimal texts |
| SvgReader.ReadRectOfRect | src/lib/qr-2-svg.ts:22-23 | The square suffix reads back as a relative square whose four sides all equal the cell size |
| SvgReader.ReadSquareOfSubpath | src/lib/qr-2-svg.ts:39 | A subpath reads back as the square at `(mc, mr)` with the cell size as side, leaving what follows |
| SvgReader.ReadPathOfPathFor | src/lib/qr-2-svg.ts:34-42 | The path data of a list of modules reads back as their squares, in the same order |
| SvgReader.ReadHeaderOfHeader | src/lib/qr-2-svg.ts:25-32 | The header reads back as a viewBox of `size` by `size` |
| SvgReader.ReadSvgOfDocument | src/lib/qr-2-svg.ts:15-48 | Reading the document gives the canvas size on both axes and the squares of the dark modules in row-major order |
| SvgReader.SquaresMembership | src/lib/qr-2-svg.ts:35-39 | The square at x from column `c` and y from row `r` is drawn if and only if module (r, c) is dark |
| SvgReader.SquaresRowMajor | src/lib/qr-2-svg.ts:34-39 | Drawn squares come top to bottom, and left to right within a row |
| SvgReader.PictureOfCode | src/lib/qr-2-svg.ts:34-39 | The squares meant for a code: one per dark module, each of side `cellSize`, at the module's offsets, in row-major order |
| SvgReader.DocumentPicture | src/lib/qr-2-svg.ts:19-45 | What the document draws: a canvas of `(matrixSize + margin) * 2` on both axes whatever the cell size, one square of side `cellSize` per dark module and none elsewhere, in row-major order |
| Scenarios.BlankCodeWithDefaults | src/lib/qr-2-svg.ts:16-45 | An all-light code with both defaults yields the header for side `(n + 8) * 2` directly followed by the trailer |
| Scenarios.VersionOneCanvas | src/lib/qr-2-svg.ts:16-27 | A 21 by 21 code with the defaults gets the viewBox `0 0 58 58` |
| Scenarios.SingleModule | src/lib/qr-2-svg.ts:22-39 | One dark module at (0, 0) with cell size 2 and margin 8 gives the single subpath `M8,8l2,0 0,2 -2,0 0,-2z ` |
| Scenarios.FiveAtOrigin | src/lib/qr-2-svg.ts:22-39 | One dark module with cell size 5 and margin 0 gives the single subpath `M0,0l5,0 0,5 -5,0 0,-5z ` |
| Scenarios.ExplicitParameters | src/lib/qr-2-svg.ts:15-48 | With cell size 5 and an explicit margin 0, the margin stays 0 and the canvas is 2 by 2 |

## Left out

- `qr2Svg` (lines 3-13) is left out. It calls the external QR encoder and logs the encoder object to the console, and that encoder is not part of this model. The model starts from the encoder's `matrixSize` and `matrix`.
- The `alt` and `title` parameters of `createSvg` are never used by the source, so they are not modelled.
- All numbers are exact naturals written in full decimal. JavaScript numbers are doubles. They agree with the model only while the cell size, margin, offsets and canvas size stay below 2^53. Above that JavaScript rounds, so cell size 2^53, margin 1 and column 1 give x = 9007199254740992 there and 9007199254740993 here. From 10^21 on, JavaScript also writes exponent notation such as `1e+21`. Neither effect is modelled.
- Negative, fractional and `NaN` cell sizes or margins are not modelled. JavaScript would write text such as `--2`, `0.5` or `NaN` for them. Among the falsy values, only 0 maps to the default 2 here; `NaN` is not a natural number.
- Inputs that are not square `matrixSize` by `matrixSize` matrices are excluded by `QrSvg.WellFormed`. JavaScript would throw on a missing row, or treat missing cells as light.
- `SvgReader` is not the source's own code. It is a reference reader written to state what the document means. It accepts text in the writer's format only:
  - the fixed header with a two-number viewBox;
  - subpaths, each one move-to followed by one relative square with four equal sides;
  - the fixed trailer.

  It does not check that its input came from some matrix. It accepts a viewBox whose width differs from its height, and subpaths at any coordinates and in any number (`SvgReader.ReaderAcceptsAnyCanvas` reads a `w` by `h` canvas for any `w` and `h`). It is only used to state, through the round-trip lemmas, what a written document means.
- Calling the serialiser twice on the same input gives the same output. This holds because `CreateSvg` is proved equal to the function `Document`, so no separate property is stated.
