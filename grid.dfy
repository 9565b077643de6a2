/** `calculateSizing` and `generateBoxes` (src/modules/grid/components/Grid.tsx):
    the size of 16:9 boxes laid out in `columns` x `rows` with gaps of
    `borderRatio` box widths, centred in a `width` x `height` container, and
    the list of boxes that the component renders. */
module GridLayout {
  import opened Padding

  const AspectRatio: real := 16.0 / 9.0

  /** Corner radius of every box. */
  const Corner: int := 8

  /** Number of tile images the names cycle through (`% 32`). */
  const TileCount: nat := 32

  datatype SizingInfo = SizingInfo(
    boxWidth: real, boxHeight: real, horzMargin: real, vertMargin: real,
    spacing: real, columns: nat, rows: nat)

  datatype Box = Box(id: string, x: real, y: real, width: real, height: real,
                     corner: int, image: string)

  function Min(a: real, b: real): real
  {
    if a <= b then a else b
  }

  /** Box widths across: the boxes plus a gap on either side of each. */
  function HorzUnits(columns: nat, borderRatio: real): real
  {
    columns as real + (columns + 1) as real * borderRatio
  }

  /** Box widths down, as `calculateSizing` computes it: the gaps are
      divided by the aspect ratio like the boxes are. */
  function VertUnits(rows: nat, borderRatio: real): real
  {
    rows as real / AspectRatio + ((rows + 1) as real / AspectRatio) * borderRatio
  }

  /** Box widths down when every gap is `borderRatio` box widths, as the
      margins and `generateBoxes` place them. */
  function CorrectedVertUnits(rows: nat, borderRatio: real): real
  {
    rows as real / AspectRatio + (rows + 1) as real * borderRatio
  }

  /** The sizing for a given box width, with the margins that centre the
      boxes and gaps in the container. */
  function SizingFor(unitSize: real, columns: nat, rows: nat, width: real, height: real,
                     borderRatio: real): (r: SizingInfo)
    ensures r.boxWidth == unitSize && r.boxHeight * AspectRatio == unitSize
    ensures r.spacing == borderRatio * unitSize
    ensures r.columns == columns && r.rows == rows
    ensures 2.0 * r.horzMargin + columns as real * r.boxWidth + (columns as real - 1.0) * r.spacing == width
    ensures 2.0 * r.vertMargin + rows as real * r.boxHeight + (rows as real - 1.0) * r.spacing == height
  {
    var w2 := columns as real * unitSize + (columns as real - 1.0) * unitSize * borderRatio;
    var h2 := (rows as real * unitSize) / AspectRatio + unitSize * (rows as real - 1.0) * borderRatio;
    SizingInfo(unitSize, unitSize / AspectRatio, (width - w2) / 2.0, (height - h2) / 2.0,
               borderRatio * unitSize, columns, rows)
  }

  /** The settings for which `calculateSizing` divides by a non-zero number
      of units: a non-negative spacing, positive when there are no columns or
      no rows. */
  predicate SizingDefined(columns: nat, rows: nat, borderRatio: real)
  {
    borderRatio >= 0.0 && (columns >= 1 || borderRatio > 0.0) && (rows >= 1 || borderRatio > 0.0)
  }

  /** `calculateSizing` as written: the box width is the smaller of the two
      per-axis limits. */
  function CalculateSizing(columns: nat, rows: nat, width: real, height: real, borderRatio: real): (r: SizingInfo)
    requires SizingDefined(columns, rows, borderRatio)
    ensures r.boxWidth <= width / HorzUnits(columns, borderRatio)
    ensures r.boxWidth <= height / VertUnits(rows, borderRatio)
    ensures r.boxWidth == width / HorzUnits(columns, borderRatio) ||
            r.boxWidth == height / VertUnits(rows, borderRatio)
    ensures r == SizingFor(r.boxWidth, columns, rows, width, height, borderRatio)
  {
    UnitsPositive(columns, rows, borderRatio);
    var horzUnitSize := width / HorzUnits(columns, borderRatio);
    var vertUnitSize := height / VertUnits(rows, borderRatio);
    SizingFor(Min(vertUnitSize, horzUnitSize), columns, rows, width, height, borderRatio)
  }

  /** `calculateSizing` with the vertical limit computed from the gaps the
      layout actually uses. */
  function CalculateSizingCorrected(columns: nat, rows: nat, width: real, height: real, borderRatio: real): (r: SizingInfo)
    requires SizingDefined(columns, rows, borderRatio)
    ensures r.boxWidth <= width / HorzUnits(columns, borderRatio)
    ensures r.boxWidth <= height / CorrectedVertUnits(rows, borderRatio)
    ensures r.boxWidth == width / HorzUnits(columns, borderRatio) ||
            r.boxWidth == height / CorrectedVertUnits(rows, borderRatio)
    ensures r == SizingFor(r.boxWidth, columns, rows, width, height, borderRatio)
  {
    UnitsPositive(columns, rows, borderRatio);
    var horzUnitSize := width / HorzUnits(columns, borderRatio);
    var vertUnitSize := height / CorrectedVertUnits(rows, borderRatio);
    SizingFor(Min(vertUnitSize, horzUnitSize), columns, rows, width, height, borderRatio)
  }

  lemma DivideBound(u: real, t: real, d: real)
    requires d > 0.0 && u <= t / d
    ensures u * d <= t
  {
    var q := t / d;
    assert q * d == t;
    assert u * d <= q * d;
  }

  lemma UnitsPositive(columns: nat, rows: nat, borderRatio: real)
    requires SizingDefined(columns, rows, borderRatio)
    ensures HorzUnits(columns, borderRatio) > 0.0
    ensures VertUnits(rows, borderRatio) > 0.0 && CorrectedVertUnits(rows, borderRatio) > 0.0
  {
    ProductNonNegative((columns + 1) as real, borderRatio);
    ProductNonNegative((rows + 1) as real, borderRatio);
    ProductNonNegative((rows + 1) as real / AspectRatio, borderRatio);
  }

  lemma NonNegativeDivide(t: real, d: real)
    requires d > 0.0 && t >= 0.0
    ensures t / d >= 0.0
  {
  }

  /** A box width that fits `units` across `extent` leaves margins of at
      least one gap on each side. */
  lemma {:induction false} MarginAtLeastGap(u: real, count: nat, extent: real, units: real, b: real)
    requires count >= 1 && b >= 0.0
    requires units == count as real + (count + 1) as real * b
    requires u <= extent / units
    ensures (extent - (count as real * u + (count as real - 1.0) * b * u)) / 2.0 >= b * u
  {
    assert units > 0.0;
    DivideBound(u, extent, units);
    assert u * units == count as real * u + (count as real - 1.0) * b * u + 2.0 * b * u;
  }

  /** Horizontally the boxes always fit: each side margin is at least one
      gap. */
  lemma HorizontalMargins(columns: nat, rows: nat, width: real, height: real, borderRatio: real)
    requires columns >= 1 && rows >= 1 && borderRatio >= 0.0
    ensures var r := CalculateSizing(columns, rows, width, height, borderRatio);
            r.horzMargin >= r.spacing
  {
    var r := CalculateSizing(columns, rows, width, height, borderRatio);
    MarginAtLeastGap(r.boxWidth, columns, width, HorzUnits(columns, borderRatio), borderRatio);
  }

  /** With the corrected vertical limit the vertical margins are at least one
      gap as well. */
  lemma CorrectedMargins(columns: nat, rows: nat, width: real, height: real, borderRatio: real)
    requires columns >= 1 && rows >= 1 && borderRatio >= 0.0
    ensures var r := CalculateSizingCorrected(columns, rows, width, height, borderRatio);
            r.horzMargin >= r.spacing && r.vertMargin >= r.spacing
  {
    var r := CalculateSizingCorrected(columns, rows, width, height, borderRatio);
    MarginAtLeastGap(r.boxWidth, columns, width, HorzUnits(columns, borderRatio), borderRatio);
    var u := r.boxWidth;
    var units := CorrectedVertUnits(rows, borderRatio);
    assert units > 0.0;
    DivideBound(u, height, units);
    assert u * units == rows as real * (u / AspectRatio) + (rows as real - 1.0) * (borderRatio * u) + 2.0 * borderRatio * u;
  }

  /** As written, the vertical margin can be negative: five rows with gaps
      of one box width in a wide, 99-unit-high container get a box width of
      16, a grid 109 high and margins of -5, so the first row starts above
      the container and the last ends below it. */
  lemma VerticalOverflowAsWritten()
    ensures var r := CalculateSizing(1, 5, 1000.0, 99.0, 1.0);
            r.boxWidth == 16.0 && r.vertMargin == -5.0 &&
            r.vertMargin + 4.0 * (r.boxHeight + r.spacing) + r.boxHeight == 104.0
  {
    assert VertUnits(5, 1.0) == 99.0 / 16.0;
    assert HorzUnits(1, 1.0) == 3.0;
    assert 99.0 / (99.0 / 16.0) == 16.0;
  }

  // ----- Boxes -----

  /** `box-<column>-<row>`. */
  function BoxId(i: nat, j: nat): string
  {
    "box-" + ToString(i) + "-" + ToString(j)
  }

  /** The tile image name: the modulo applies to `columns * j` only. */
  function TileImage(columns: nat, i: nat, j: nat): string
  {
    "assets/tiles/" + ZeroPadded(i + (columns * j) % TileCount, 2) + ".jpg"
  }

  /** Left edge of the boxes of column i. */
  function ColumnX(info: SizingInfo, i: nat): real
  {
    info.horzMargin + i as real * (info.boxWidth + info.spacing)
  }

  /** Top edge of the boxes of row j. */
  function RowY(info: SizingInfo, j: nat): real
  {
    info.vertMargin + j as real * (info.boxHeight + info.spacing)
  }

  /** Box (i, j): column i, row j. */
  function BoxAt(info: SizingInfo, i: nat, j: nat): (b: Box)
  {
    Box(BoxId(i, j), ColumnX(info, i), RowY(info, j), info.boxWidth, info.boxHeight, Corner,
        TileImage(info.columns, i, j))
  }

  /** The cells of column i of a grid with `rows` rows, top to bottom. */
  function Column<T>(i: nat, rows: nat, cell: (nat, nat) -> T): (c: seq<T>)
    ensures |c| == rows && forall j :: 0 <= j < rows ==> c[j] == cell(i, j)
  {
    seq(rows, j requires 0 <= j < rows => cell(i, j))
  }

  /** The cells of the first `n` columns, column by column. */
  function ColumnMajor<T>(n: nat, rows: nat, cell: (nat, nat) -> T): seq<T>
  {
    if n == 0 then [] else ColumnMajor(n - 1, rows, cell) + Column(n - 1, rows, cell)
  }

  lemma ColumnMajorBound(i: nat, j: nat, n: nat, rows: nat)
    requires i < n && j < rows
    ensures i * rows + j < n * rows
  {
    assert (i + 1) * rows <= n * rows;
  }

  lemma {:induction false} ColumnMajorLength<T>(n: nat, rows: nat, cell: (nat, nat) -> T)
    ensures |ColumnMajor(n, rows, cell)| == n * rows
  {
    if n > 0 {
      ColumnMajorLength(n - 1, rows, cell);
      assert n * rows == (n - 1) * rows + rows;
    }
  }

  /** Cell (i, j) sits at position `i * rows + j`. */
  lemma {:induction false} ColumnMajorAt<T>(n: nat, rows: nat, cell: (nat, nat) -> T, i: nat, j: nat)
    requires i < n && j < rows
    ensures i * rows + j < |ColumnMajor(n, rows, cell)|
    ensures ColumnMajor(n, rows, cell)[i * rows + j] == cell(i, j)
  {
    ColumnMajorLength(n - 1, rows, cell);
    ColumnMajorLength(n, rows, cell);
    ColumnMajorBound(i, j, n, rows);
    if i < n - 1 {
      ColumnMajorAt(n - 1, rows, cell, i, j);
    } else {
      assert i * rows + j - |ColumnMajor(n - 1, rows, cell)| == j;
    }
  }

  /** Every cell listed is the cell of some column below `n` and some row. */
  lemma {:induction false} ColumnMajorMember<T>(n: nat, rows: nat, cell: (nat, nat) -> T, x: T)
    requires x in ColumnMajor(n, rows, cell)
    ensures exists i: nat, j: nat :: i < n && j < rows && x == cell(i, j)
  {
    if x in ColumnMajor(n - 1, rows, cell) {
      ColumnMajorMember(n - 1, rows, cell, x);
    } else {
      var c := Column(n - 1, rows, cell);
      var j :| 0 <= j < rows && c[j] == x;
      assert x == cell(n - 1, j);
    }
  }

  /** One more cell of column i extends the cells listed so far. */
  lemma ColumnPrefixSnoc<T>(i: nat, j: nat, rows: nat, cell: (nat, nat) -> T, acc: seq<T>)
    requires j < rows
    requires acc == ColumnMajor(i, rows, cell) + Column(i, rows, cell)[..j]
    ensures acc + [cell(i, j)] == ColumnMajor(i, rows, cell) + Column(i, rows, cell)[..j + 1]
  {
    var m, c := ColumnMajor(i, rows, cell), Column(i, rows, cell);
    assert c[j] == cell(i, j);
    assert c[..j + 1] == c[..j] + [c[j]];
    assert (m + c[..j]) + [c[j]] == m + (c[..j] + [c[j]]);
  }

  /** The box cell function of a sizing. */
  function Cells(info: SizingInfo): (nat, nat) -> Box
  {
    (i: nat, j: nat) => BoxAt(info, i, j)
  }

  /** The first `n` columns of boxes, column by column. */
  function BoxesUpTo(info: SizingInfo, n: nat): seq<Box>
  {
    ColumnMajor(n, info.rows, Cells(info))
  }

  /** Column-major order: `columns * rows` boxes, box (i, j) at position
      `i * rows + j`. */
  lemma BoxesLayout(info: SizingInfo, i: nat, j: nat)
    requires i < info.columns && j < info.rows
    ensures |BoxesUpTo(info, info.columns)| == info.columns * info.rows
    ensures i * info.rows + j < |BoxesUpTo(info, info.columns)|
    ensures BoxesUpTo(info, info.columns)[i * info.rows + j] == BoxAt(info, i, j)
  {
    ColumnMajorLength(info.columns, info.rows, Cells(info));
    ColumnMajorAt(info.columns, info.rows, Cells(info), i, j);
  }

  /** The object literal pushed for column i, row j. */
  method MakeBox(info: SizingInfo, i: nat, j: nat) returns (box: Box)
    ensures box == BoxAt(info, i, j)
  {
    var x := ColumnX(info, i);
    var y := RowY(info, j);
    var id := "box-" + ToString(i) + "-" + ToString(j);
    var num := PadLeadingZeros(i + (info.columns * j) % TileCount, 2);
    var image := "assets/tiles/" + num + ".jpg";
    BuiltNames(info.columns, i, j, num);
    box := Box(id, x, y, info.boxWidth, info.boxHeight, Corner, image);
  }

  /** The id and image the loop body builds are those of box (i, j). */
  lemma BuiltNames(columns: nat, i: nat, j: nat, num: string)
    requires num == ZeroPadded(i + (columns * j) % TileCount, 2)
    ensures "box-" + ToString(i) + "-" + ToString(j) == BoxId(i, j)
    ensures "assets/tiles/" + num + ".jpg" == TileImage(columns, i, j)
  {
  }

  /** The nested loops of `generateBoxes`, pushing one box per (i, j). */
  method GenerateBoxes(info: SizingInfo) returns (boxes: seq<Box>)
    ensures boxes == BoxesUpTo(info, info.columns)
  {
    ghost var cell := Cells(info);
    boxes := [];
    var i := 0;
    while i < info.columns
      invariant 0 <= i <= info.columns
      invariant boxes == ColumnMajor(i, info.rows, cell)
    {
      var j := 0;
      while j < info.rows
        invariant 0 <= j <= info.rows
        invariant boxes == ColumnMajor(i, info.rows, cell) + Column(i, info.rows, cell)[..j]
      {
        var box := MakeBox(info, i, j);
        ColumnPrefixSnoc(i, j, info.rows, cell, boxes);
        boxes := boxes + [box];
        j := j + 1;
      }
      assert Column(i, info.rows, cell)[..info.rows] == Column(i, info.rows, cell);
      i := i + 1;
    }
  }

  /** Every box has the size and corner of the sizing. */
  lemma BoxesUniform(info: SizingInfo, b: Box)
    requires b in BoxesUpTo(info, info.columns)
    ensures b.width == info.boxWidth && b.height == info.boxHeight && b.corner == Corner
  {
    ColumnMajorMember(info.columns, info.rows, Cells(info), b);
  }

  /** Position `4 + k` of `box-<c>-<d>` is a digit of `c` when `k < |c|`
      and the dash when `k == |c|`. */
  lemma CharAfterPrefix(c: string, d: string, k: nat)
    requires AllDigits(c) && k <= |c|
    ensures |"box-" + c + "-" + d| > 4 + k
    ensures ("box-" + c + "-" + d)[4 + k] == '-' <==> k == |c|
  {
    if k < |c| {
      assert ("box-" + c + "-" + d)[4 + k] == c[k];
    }
  }

  /** Two digit strings each followed by '-' split a string the same way. */
  lemma DigitsBeforeDash(a: string, b: string, c: string, d: string)
    requires AllDigits(a) && AllDigits(c)
    requires "box-" + a + "-" + b == "box-" + c + "-" + d
    ensures |a| == |c|
  {
    var m := if |a| <= |c| then |a| else |c|;
    CharAfterPrefix(a, b, m);
    CharAfterPrefix(c, d, m);
  }

  /** Box ids are distinct for distinct (column, row) pairs. */
  lemma BoxIdInjective(i: nat, j: nat, i': nat, j': nat)
    requires BoxId(i, j) == BoxId(i', j')
    ensures i == i' && j == j'
  {
    var a, b, c, d := ToString(i), ToString(j), ToString(i'), ToString(j');
    var s, t := "box-" + a + "-" + b, "box-" + c + "-" + d;
    assert s == t;
    DigitsBeforeDash(a, b, c, d);
    assert a == s[4..4 + |a|] == t[4..4 + |c|] == c;
    assert b == s[5 + |a|..] == t[5 + |c|..] == d;
    ToStringInjective(i, i');
    ToStringInjective(j, j');
  }

  /** Every box inside the container, once the vertical limit is corrected
      (non-negative container sizes). */
  lemma CorrectedBoxesInside(columns: nat, rows: nat, width: real, height: real, borderRatio: real, i: nat, j: nat)
    requires columns >= 1 && rows >= 1 && borderRatio >= 0.0 && width >= 0.0 && height >= 0.0
    requires i < columns && j < rows
    ensures var r := CalculateSizingCorrected(columns, rows, width, height, borderRatio);
            0.0 <= ColumnX(r, i) && ColumnX(r, i) + r.boxWidth <= width &&
            0.0 <= RowY(r, j) && RowY(r, j) + r.boxHeight <= height
  {
    CorrectedInsideHorizontally(columns, rows, width, height, borderRatio, i);
    CorrectedInsideVertically(columns, rows, width, height, borderRatio, j);
  }

  lemma CorrectedInsideHorizontally(columns: nat, rows: nat, width: real, height: real, borderRatio: real, i: nat)
    requires columns >= 1 && rows >= 1 && borderRatio >= 0.0 && width >= 0.0 && height >= 0.0
    requires i < columns
    ensures var r := CalculateSizingCorrected(columns, rows, width, height, borderRatio);
            0.0 <= ColumnX(r, i) && ColumnX(r, i) + r.boxWidth <= width
  {
    var r := CalculateSizingCorrected(columns, rows, width, height, borderRatio);
    CorrectedMargins(columns, rows, width, height, borderRatio);
    UnitsPositive(columns, rows, borderRatio);
    NonNegativeDivide(width, HorzUnits(columns, borderRatio));
    NonNegativeDivide(height, CorrectedVertUnits(rows, borderRatio));
    SizingFitsHorizontally(r, width, borderRatio, i);
  }

  lemma CorrectedInsideVertically(columns: nat, rows: nat, width: real, height: real, borderRatio: real, j: nat)
    requires columns >= 1 && rows >= 1 && borderRatio >= 0.0 && width >= 0.0 && height >= 0.0
    requires j < rows
    ensures var r := CalculateSizingCorrected(columns, rows, width, height, borderRatio);
            0.0 <= RowY(r, j) && RowY(r, j) + r.boxHeight <= height
  {
    var r := CalculateSizingCorrected(columns, rows, width, height, borderRatio);
    CorrectedMargins(columns, rows, width, height, borderRatio);
    UnitsPositive(columns, rows, borderRatio);
    NonNegativeDivide(width, HorzUnits(columns, borderRatio));
    NonNegativeDivide(height, CorrectedVertUnits(rows, borderRatio));
    SizingFitsVertically(r, height, borderRatio, j);
  }

  /** Horizontally every box is inside the container as written. */
  lemma BoxesInsideHorizontally(columns: nat, rows: nat, width: real, height: real, borderRatio: real, i: nat)
    requires columns >= 1 && rows >= 1 && borderRatio >= 0.0 && width >= 0.0 && height >= 0.0
    requires i < columns
    ensures var r := CalculateSizing(columns, rows, width, height, borderRatio);
            0.0 <= ColumnX(r, i) && ColumnX(r, i) + r.boxWidth <= width
  {
    var r := CalculateSizing(columns, rows, width, height, borderRatio);
    HorizontalMargins(columns, rows, width, height, borderRatio);
    NonNegativeDivide(width, HorzUnits(columns, borderRatio));
    NonNegativeDivide(height, VertUnits(rows, borderRatio));
    SizingFitsHorizontally(r, width, borderRatio, i);
  }

  /** The `Grid` component with the corrected vertical limit: every box it
      renders lies inside the container. */
  lemma CorrectedGridInside(columns: nat, rows: nat, width: real, height: real, borderRatio: real, box: Box)
    requires columns >= 1 && rows >= 1 && borderRatio >= 0.0 && width >= 0.0 && height >= 0.0
    requires box in BoxesUpTo(CalculateSizingCorrected(columns, rows, width, height, borderRatio), columns)
    ensures 0.0 <= box.x && box.x + box.width <= width
    ensures 0.0 <= box.y && box.y + box.height <= height
  {
    var r := CalculateSizingCorrected(columns, rows, width, height, borderRatio);
    ColumnMajorMember(columns, rows, Cells(r), box);
    var i: nat, j: nat :| i < columns && j < rows && box == Cells(r)(i, j);
    CorrectedBoxesInside(columns, rows, width, height, borderRatio, i, j);
  }

  /** With no columns or no rows (and a positive spacing) the sizing is
      finite and no box is rendered. */
  lemma EmptyGrid(columns: nat, rows: nat, width: real, height: real, borderRatio: real)
    requires SizingDefined(columns, rows, borderRatio) && (columns == 0 || rows == 0)
    ensures BoxesUpTo(CalculateSizing(columns, rows, width, height, borderRatio), columns) == []
    ensures BoxesUpTo(CalculateSizingCorrected(columns, rows, width, height, borderRatio), columns) == []
  {
    ColumnMajorLength(columns, rows, Cells(CalculateSizing(columns, rows, width, height, borderRatio)));
    ColumnMajorLength(columns, rows, Cells(CalculateSizingCorrected(columns, rows, width, height, borderRatio)));
  }

  /** The `Grid` component as written: every box it renders lies across the
      container's width. */
  lemma GridInsideHorizontally(columns: nat, rows: nat, width: real, height: real, borderRatio: real, box: Box)
    requires columns >= 1 && rows >= 1 && borderRatio >= 0.0 && width >= 0.0 && height >= 0.0
    requires box in BoxesUpTo(CalculateSizing(columns, rows, width, height, borderRatio), columns)
    ensures 0.0 <= box.x && box.x + box.width <= width
  {
    var r := CalculateSizing(columns, rows, width, height, borderRatio);
    ColumnMajorMember(columns, rows, Cells(r), box);
    var i: nat, j: nat :| i < columns && j < rows && box == Cells(r)(i, j);
    BoxesInsideHorizontally(columns, rows, width, height, borderRatio, i);
  }

  /** Box (i, j) lies across `[0, width]` when the side margins are at
      least one gap. */
  lemma SizingFitsHorizontally(r: SizingInfo, width: real, borderRatio: real, i: nat)
    requires i < r.columns && borderRatio >= 0.0 && r.boxWidth >= 0.0
    requires r.spacing == borderRatio * r.boxWidth
    requires 2.0 * r.horzMargin + r.columns as real * r.boxWidth + (r.columns as real - 1.0) * r.spacing == width
    requires r.horzMargin >= r.spacing
    ensures 0.0 <= ColumnX(r, i) && ColumnX(r, i) + r.boxWidth <= width
  {
    ProductNonNegative(borderRatio, r.boxWidth);
    FitsAt(ColumnX(r, i), r.horzMargin, r.boxWidth, r.spacing, r.columns, i, width);
  }

  /** Box (i, j) lies across `[0, height]` when the top and bottom margins
      are at least one gap. */
  lemma SizingFitsVertically(r: SizingInfo, height: real, borderRatio: real, j: nat)
    requires j < r.rows && borderRatio >= 0.0 && r.boxWidth >= 0.0
    requires r.spacing == borderRatio * r.boxWidth && r.boxHeight * AspectRatio == r.boxWidth
    requires 2.0 * r.vertMargin + r.rows as real * r.boxHeight + (r.rows as real - 1.0) * r.spacing == height
    requires r.vertMargin >= r.spacing
    ensures 0.0 <= RowY(r, j) && RowY(r, j) + r.boxHeight <= height
  {
    ProductNonNegative(borderRatio, r.boxWidth);
    HeightNonNegative(r.boxHeight, r.boxWidth);
    FitsAt(RowY(r, j), r.vertMargin, r.boxHeight, r.spacing, r.rows, j, height);
  }

  lemma FitsAt(pos: real, margin: real, size: real, gap: real, count: nat, k: nat, extent: real)
    requires pos == margin + k as real * (size + gap)
    requires k < count && size >= 0.0 && gap >= 0.0 && margin >= gap
    requires 2.0 * margin + count as real * size + (count as real - 1.0) * gap == extent
    ensures 0.0 <= pos && pos + size <= extent
  {
    Fits(margin, size, gap, count, k, extent);
  }

  lemma ProductNonNegative(a: real, b: real)
    requires a >= 0.0 && b >= 0.0
    ensures a * b >= 0.0
  {
  }

  lemma HeightNonNegative(h: real, w: real)
    requires h * AspectRatio == w && w >= 0.0
    ensures h >= 0.0
  {
    assert h * 16.0 == w * 9.0;
  }

  lemma MultiplyMonotone(a: real, b: real, c: real)
    requires a <= b && c >= 0.0
    ensures a * c <= b * c
  {
    assert (b - a) * c >= 0.0;
  }

  /** One axis: `count` boxes of `size` with `gap` between them, centred by
      `margin`, hold the k-th box within `[0, extent]`. */
  lemma Fits(margin: real, size: real, gap: real, count: nat, k: nat, extent: real)
    requires k < count && size >= 0.0 && gap >= 0.0 && margin >= gap
    requires 2.0 * margin + count as real * size + (count as real - 1.0) * gap == extent
    ensures 0.0 <= margin + k as real * (size + gap)
    ensures margin + k as real * (size + gap) + size <= extent
  {
    MultiplyMonotone(0.0, k as real, size + gap);
    MultiplyMonotone(k as real, count as real - 1.0, size + gap);
  }
}
