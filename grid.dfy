/** The grid partitioner and feature extractor of `core.py`: an H x W image is cut
    into R x R equal cells in row-major order, each cell gets a normalised centre,
    and each cell is summarised by its per-channel mean colour. */
module Grid {
  import opened Wrappers
  import opened Pixels
  import opened Arith

  /** A block of pixels, stored row by row. */
  type Cell = seq<seq<Color>>

  /** `image` has |image| rows of exactly `width` pixels each. */
  predicate IsRaster(image: seq<seq<Color>>, width: nat) {
    forall row :: 0 <= row < |image| ==> |image[row]| == width
  }

  /** `cell` is a `h` x `w` block. */
  predicate IsBlock(cell: Cell, h: nat, w: nat) {
    |cell| == h && IsRaster(cell, w)
  }

  /** The cells of an image with their centres (parallel sequences) and the cell size. */
  datatype CellSet = CellSet(cells: seq<Cell>, positions: seq<Pos>, cellH: nat, cellW: nat)

  /** numpy's `linspace(start, stop, num)`: `num` evenly spaced values from `start`
      to `stop` inclusive (just `start` when num is 1). */
  function Linspace(start: real, stop: real, num: nat): (s: seq<real>)
    ensures |s| == num
    ensures num >= 1 ==> s[0] == start
    ensures num >= 2 ==> s[num - 1] == stop
  {
    if num == 1 then [start]
    else seq(num, i => start + (i as real) * ((stop - start) / ((num - 1) as real)))
  }

  /** Pixel (y, x) of grid cell k: the cell in grid row k / R and grid column k % R. */
  function CellPixel(image: seq<seq<Color>>, width: nat, gridRes: nat, cellH: nat, cellW: nat,
                     k: nat, y: nat, x: nat): Color
    requires IsRaster(image, width)
    requires 0 < gridRes && gridRes * cellH <= |image| && gridRes * cellW <= width
    requires k < gridRes * gridRes && y < cellH && x < cellW
  {
    DivBelow(k, gridRes, gridRes);
    BlockIndexBound(k / gridRes, gridRes, cellH, y);
    BlockIndexBound(k % gridRes, gridRes, cellW, x);
    image[(k / gridRes) * cellH + y][(k % gridRes) * cellW + x]
  }

  /** The R * R cells of `cellH` x `cellW` pixels, row-major over the grid. */
  function CellsOf(image: seq<seq<Color>>, width: nat, gridRes: nat, cellH: nat, cellW: nat): (cells: seq<Cell>)
    requires IsRaster(image, width)
    requires 0 < gridRes && gridRes * cellH <= |image| && gridRes * cellW <= width
    ensures |cells| == gridRes * gridRes
    ensures forall k :: 0 <= k < |cells| ==> IsBlock(cells[k], cellH, cellW)
  {
    var n := gridRes * gridRes;
    seq(n, k requires 0 <= k < n =>
      seq(cellH, y requires 0 <= y < cellH =>
        seq(cellW, x requires 0 <= x < cellW =>
          CellPixel(image, width, gridRes, cellH, cellW, k, y, x))))
  }

  /** The normalised centres: position k pairs the linspace value of grid row k / R
      with that of grid column k % R (numpy's meshgrid with 'ij' indexing, raveled). */
  function CentresOf(gridRes: nat): (positions: seq<Pos>)
    requires 0 < gridRes
    ensures |positions| == gridRes * gridRes
  {
    var ys := Linspace(0.5 / gridRes as real, 1.0 - 0.5 / gridRes as real, gridRes);
    var xs := Linspace(0.5 / gridRes as real, 1.0 - 0.5 / gridRes as real, gridRes);
    var n := gridRes * gridRes;
    seq(n, k requires 0 <= k < n =>
      DivBelow(k, gridRes, gridRes);
      Pos(ys[k / gridRes], xs[k % gridRes]))
  }

  /** `get_cells`: keep the top-left (H//R*R) x (W//R*R) region, reshape it into R*R
      cells of (H//R) x (W//R) pixels in row-major order, and give each cell its centre.
      A grid resolution of 0 divides by zero. A negative one puts two negative extents
      into the first reshape, and numpy accepts only one unknown extent. A grid finer
      than the image has empty cells, and numpy cannot infer the cell count of a
      zero-size array in the last reshape. */
  function GetCells(image: seq<seq<Color>>, width: nat, gridRes: int): (r: Result<CellSet>)
    requires IsRaster(image, width)
    ensures r.Failure? <==> gridRes <= 0 || |image| < gridRes || width < gridRes
    ensures r.Success? ==>
              && r.value.cellH == |image| / gridRes >= 1
              && r.value.cellW == width / gridRes >= 1
              && gridRes * r.value.cellH <= |image| && gridRes * r.value.cellW <= width
              && r.value.cells == CellsOf(image, width, gridRes, r.value.cellH, r.value.cellW)
              && r.value.positions == CentresOf(gridRes)
  {
    if gridRes == 0 then Failure("integer division or modulo by zero")
    else if gridRes < 0 then Failure("can only specify one unknown dimension")
    else if |image| < gridRes || width < gridRes then Failure("cannot reshape array of size 0")
    else
      var validH := (|image| / gridRes) * gridRes;
      var validW := (width / gridRes) * gridRes;
      TruncatedLength(|image|, gridRes);
      TruncatedLength(width, gridRes);
      var cellH := validH / gridRes;
      var cellW := validW / gridRes;
      DivAtLeastOne(|image|, gridRes);
      DivAtLeastOne(width, gridRes);
      Success(CellSet(CellsOf(image, width, gridRes, cellH, cellW), CentresOf(gridRes), cellH, cellW))
  }

  lemma DivAtLeastOne(a: nat, n: nat)
    requires 0 < n <= a
    ensures a / n >= 1
  {
  }

  /** There are R * R cells, each (H // R) x (W // R), with R * R parallel positions. */
  lemma CellCounts(image: seq<seq<Color>>, width: nat, gridRes: int)
    requires IsRaster(image, width) && 0 < gridRes <= |image| && gridRes <= width
    ensures var cs := GetCells(image, width, gridRes).value;
            && |cs.cells| == gridRes * gridRes == |cs.positions|
            && forall k :: 0 <= k < |cs.cells| ==> IsBlock(cs.cells[k], |image| / gridRes, width / gridRes)
  {
  }

  /** Cell k, pixel (y, x) is image pixel (row, col) = ((k / R) * cellH + y, (k % R) * cellW + x), and
      that pixel lies inside the kept top-left region of R * cellH rows and R * cellW columns. */
  lemma CellPixelIsImagePixel(image: seq<seq<Color>>, width: nat, gridRes: nat, cellH: nat, cellW: nat,
                              k: nat, y: nat, x: nat, row: nat, col: nat)
    requires IsRaster(image, width)
    requires 0 < gridRes && gridRes * cellH <= |image| && gridRes * cellW <= width
    requires k < gridRes * gridRes && y < cellH && x < cellW
    requires row == (k / gridRes) * cellH + y && col == (k % gridRes) * cellW + x
    ensures row < gridRes * cellH && col < gridRes * cellW
    ensures CellsOf(image, width, gridRes, cellH, cellW)[k][y][x] == image[row][col]
  {
    var cells := CellsOf(image, width, gridRes, cellH, cellW);
    assert cells[k][y][x] == CellPixel(image, width, gridRes, cellH, cellW, k, y, x);
    DivBelow(k, gridRes, gridRes);
    BlockIndexBound(k / gridRes, gridRes, cellH, y);
    BlockIndexBound(k % gridRes, gridRes, cellW, x);
  }

  /** The cells partition the kept region: each of its pixels is pixel
      (row % cellH, col % cellW) of cell (row / cellH) * R + col / cellW. */
  lemma KeptPixelInCell(image: seq<seq<Color>>, width: nat, gridRes: nat, cellH: nat, cellW: nat,
                        row: nat, col: nat)
    requires IsRaster(image, width)
    requires 0 < gridRes && gridRes * cellH <= |image| && gridRes * cellW <= width
    requires row < gridRes * cellH && col < gridRes * cellW
    ensures var cells := CellsOf(image, width, gridRes, cellH, cellW);
            var k := (row / cellH) * gridRes + col / cellW;
            && 0 <= k < |cells|
            && cells[k][row % cellH][col % cellW] == image[row][col]
  {
    var h, w := cellH, cellW;
    var k := (row / h) * gridRes + col / w;
    GridIndex(row, col, gridRes, h, w);
    CellPixelIsImagePixel(image, width, gridRes, h, w, k, row % h, col % w, row, col);
  }

  /** Grid arithmetic behind the partition: the pixel (row, col) of a kept region of
      R x R blocks of h x w pixels sits in block (row / h) * R + col / w. */
  lemma GridIndex(row: nat, col: nat, gridRes: nat, h: nat, w: nat)
    requires gridRes > 0 && h > 0 && w > 0
    requires row < gridRes * h && col < gridRes * w
    ensures var k := (row / h) * gridRes + col / w;
            && 0 <= k < gridRes * gridRes
            && k / gridRes == row / h && k % gridRes == col / w
            && (k / gridRes) * h + row % h == row
            && (k % gridRes) * w + col % w == col
  {
    var gy, gx := row / h, col / w;
    assert row == gy * h + row % h && col == gx * w + col % w;
    DivBelow(row, gridRes, h);
    DivBelow(col, gridRes, w);
    var k := gy * gridRes + gx;
    MulMono(0, gy, gridRes);
    BlockIndexBound(gy, gridRes, gridRes, gx);
    DivModUnique(k, gridRes, gy, gx);
  }

  /** The linspace used for centres yields (i + 0.5) / R. */
  lemma LinspaceCentre(gridRes: nat, i: nat)
    requires 0 < gridRes && i < gridRes
    ensures Linspace(0.5 / gridRes as real, 1.0 - 0.5 / gridRes as real, gridRes)[i]
            == (i as real + 0.5) / gridRes as real
  {
    var n := gridRes as real;
    if gridRes > 1 {
      var step := ((1.0 - 0.5 / n) - 0.5 / n) / (n - 1.0);
      assert (1.0 - 0.5 / n) - 0.5 / n == (n - 1.0) / n;
      assert step == 1.0 / n;
      assert 0.5 / n + (i as real) * (1.0 / n) == (i as real + 0.5) / n;
    }
  }

  lemma CentreInside(n: nat, i: nat)
    requires i < n
    ensures 0.0 < (i as real + 0.5) / n as real < 1.0
  {
    DivBetween(i as real + 0.5, n as real);
  }

  /** Position k is ((k / R + 0.5) / R, (k % R + 0.5) / R) and lies strictly inside the
      unit square. */
  lemma PositionIsCellCentre(image: seq<seq<Color>>, width: nat, gridRes: int, k: nat)
    requires IsRaster(image, width) && 0 < gridRes <= |image| && gridRes <= width
    requires k < gridRes * gridRes
    ensures var p := GetCells(image, width, gridRes).value.positions[k];
            && p == Pos(((k / gridRes) as real + 0.5) / gridRes as real,
                        ((k % gridRes) as real + 0.5) / gridRes as real)
            && 0.0 < p.y < 1.0 && 0.0 < p.x < 1.0
  {
    var q := k / gridRes;
    DivBelow(k, gridRes, gridRes);
    LinspaceCentre(gridRes, q);
    LinspaceCentre(gridRes, k % gridRes);
    CentreInside(gridRes, q);
    CentreInside(gridRes, k % gridRes);
  }

  /** A 512 x 512 image on a 4 x 4 grid gives 16 cells of 128 x 128 pixels centred at
      0.125, 0.375, 0.625 and 0.875 on each axis, enumerated row-major. */
  lemma FourByFourGrid(image: seq<seq<Color>>, k: nat)
    requires |image| == 512 && IsRaster(image, 512)
    requires k < 16
    ensures var cs := GetCells(image, 512, 4).value;
            var centres := [0.125, 0.375, 0.625, 0.875];
            && |cs.cells| == 16 && cs.cellH == 128 && cs.cellW == 128
            && cs.positions[k] == Pos(centres[k / 4], centres[k % 4])
  {
    PositionIsCellCentre(image, 512, 4, k);
  }

  /** The sum of one channel over a sequence of pixels. */
  function RowSum(row: seq<Color>, ch: nat): real
    requires ch < 3
  {
    if row == [] then 0.0 else Channel(row[0], ch) + RowSum(row[1..], ch)
  }

  /** The pixels of a cell, row after row. */
  function Flatten(cell: Cell): seq<Color> {
    if cell == [] then [] else cell[0] + Flatten(cell[1..])
  }

  /** The sum of one channel over every pixel of a cell. */
  function CellSum(cell: Cell, ch: nat): real
    requires ch < 3
  {
    RowSum(Flatten(cell), ch)
  }

  /** `extract_features`: the mean colour of each cell, i.e. for every channel the sum
      over the cell's pixels divided by their number. */
  function ExtractFeatures(cells: seq<Cell>): (features: seq<Color>)
    requires forall k :: 0 <= k < |cells| ==> Flatten(cells[k]) != []
    ensures |features| == |cells|
    ensures forall k, ch :: 0 <= k < |cells| && 0 <= ch < 3 ==>
              Channel(features[k], ch) * |Flatten(cells[k])| as real == CellSum(cells[k], ch)
  {
    seq(|cells|, k requires 0 <= k < |cells| => MeanColor(cells[k]))
  }

  /** The mean colour of a non-empty cell, channel by channel. */
  function MeanColor(cell: Cell): (c: Color)
    requires Flatten(cell) != []
    ensures forall ch :: 0 <= ch < 3 ==> Channel(c, ch) * |Flatten(cell)| as real == CellSum(cell, ch)
  {
    var n := |Flatten(cell)| as real;
    Color(Quotient(CellSum(cell, 0), n), Quotient(CellSum(cell, 1), n), Quotient(CellSum(cell, 2), n))
  }

  /** Flattening a h x w block keeps its h * w pixels. */
  lemma {:induction false} FlattenLength(cell: Cell, h: nat, w: nat)
    requires IsBlock(cell, h, w)
    ensures |Flatten(cell)| == h * w
  {
    if h > 0 {
      var rest := cell[1..];
      assert IsBlock(rest, h - 1, w) by {
        assert forall y :: 0 <= y < h - 1 ==> rest[y] == cell[y + 1];
      }
      FlattenLength(rest, h - 1, w);
      assert (h - 1) * w + w == h * w;
    }
  }

  /** A channel bound that holds at every pixel of a cell holds throughout its flattening. */
  lemma {:induction false} FlattenBounded(cell: Cell, ch: nat, lo: real, hi: real)
    requires ch < 3
    requires forall y, x :: 0 <= y < |cell| && 0 <= x < |cell[y]| ==> lo <= Channel(cell[y][x], ch) <= hi
    ensures forall p :: p in Flatten(cell) ==> lo <= Channel(p, ch) <= hi
  {
    if cell != [] {
      var rest := cell[1..];
      assert forall y :: 0 <= y < |rest| ==> rest[y] == cell[y + 1];
      FlattenBounded(rest, ch, lo, hi);
      assert forall p :: p in cell[0] ==> lo <= Channel(p, ch) <= hi;
    }
  }

  lemma {:induction false} RowSumBounds(row: seq<Color>, ch: nat, lo: real, hi: real)
    requires ch < 3
    requires forall p :: p in row ==> lo <= Channel(p, ch) <= hi
    ensures |row| as real * lo <= RowSum(row, ch) <= |row| as real * hi
  {
    if row != [] {
      var m := |row| - 1;
      RowSumBounds(row[1..], ch, lo, hi);
      assert |row| as real * lo == m as real * lo + lo;
      assert |row| as real * hi == m as real * hi + hi;
    }
  }

  /** Every cell of a grid with non-empty cells has cellH * cellW > 0 pixels, so the
      features of `get_cells`' output are defined. */
  lemma CellsNonEmpty(cs: CellSet)
    requires cs.cellH > 0 && cs.cellW > 0
    requires forall k :: 0 <= k < |cs.cells| ==> IsBlock(cs.cells[k], cs.cellH, cs.cellW)
    ensures forall k :: 0 <= k < |cs.cells| ==> |Flatten(cs.cells[k])| == cs.cellH * cs.cellW > 0
  {
    MulMono(1, cs.cellH, cs.cellW);
    forall k | 0 <= k < |cs.cells|
      ensures |Flatten(cs.cells[k])| == cs.cellH * cs.cellW
    {
      FlattenLength(cs.cells[k], cs.cellH, cs.cellW);
    }
  }

  /** Every cell `get_cells` returns has at least one pixel, so its features are
      defined. */
  lemma GetCellsFeaturesDefined(image: seq<seq<Color>>, width: nat, gridRes: int)
    requires IsRaster(image, width) && GetCells(image, width, gridRes).Success?
    ensures var cells := GetCells(image, width, gridRes).value.cells;
            forall k :: 0 <= k < |cells| ==> Flatten(cells[k]) != []
  {
    CellsNonEmpty(GetCells(image, width, gridRes).value);
  }

  /** A value q with q * n equal to the channel sum of n > 0 pixels whose channel values
      all lie in [lo, hi] lies in [lo, hi] too. */
  lemma MeanBounds(pixels: seq<Color>, ch: nat, q: real, lo: real, hi: real)
    requires ch < 3 && pixels != []
    requires forall p :: p in pixels ==> lo <= Channel(p, ch) <= hi
    requires q * |pixels| as real == RowSum(pixels, ch)
    ensures lo <= q <= hi
  {
    RowSumBounds(pixels, ch, lo, hi);
    ScaledBounds(q, RowSum(pixels, ch), |pixels| as real, lo, hi);
  }

  /** Each channel of a cell's mean lies between the smallest and the largest value of
      that channel over the cell's pixels. */
  lemma MeanWithinChannelBounds(cells: seq<Cell>, k: nat, ch: nat, lo: real, hi: real)
    requires forall j :: 0 <= j < |cells| ==> Flatten(cells[j]) != []
    requires k < |cells| && ch < 3
    requires forall p :: p in Flatten(cells[k]) ==> lo <= Channel(p, ch) <= hi
    ensures lo <= Channel(ExtractFeatures(cells)[k], ch) <= hi
  {
    var q := Channel(ExtractFeatures(cells)[k], ch);
    assert q * |Flatten(cells[k])| as real == CellSum(cells[k], ch);
    MeanBounds(Flatten(cells[k]), ch, q, lo, hi);
  }

  /** A cell of a single colour has that colour as its feature. */
  lemma MeanOfConstantCell(cells: seq<Cell>, k: nat, c: Color)
    requires forall j :: 0 <= j < |cells| ==> Flatten(cells[j]) != []
    requires k < |cells|
    requires forall y, x :: 0 <= y < |cells[k]| && 0 <= x < |cells[k][y]| ==> cells[k][y][x] == c
    ensures ExtractFeatures(cells)[k] == c
  {
    FlattenBounded(cells[k], 0, c.r, c.r);
    FlattenBounded(cells[k], 1, c.g, c.g);
    FlattenBounded(cells[k], 2, c.b, c.b);
    MeanWithinChannelBounds(cells, k, 0, c.r, c.r);
    MeanWithinChannelBounds(cells, k, 1, c.g, c.g);
    MeanWithinChannelBounds(cells, k, 2, c.b, c.b);
  }
}
