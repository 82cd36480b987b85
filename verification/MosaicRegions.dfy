/** Where each camera of a live view is drawn on the canvas. */
module MosaicRegions {
  import opened LiveLayout

  /** A half-open rectangle of pixels. */
  datatype Rect = Rect(minX: int, minY: int, maxX: int, maxY: int) {
    predicate Empty() {
      minX >= maxX || minY >= maxY
    }

    predicate Holds(x: int, y: int) {
      minX <= x < maxX && minY <= y < maxY
    }
  }

  /** The image library's constructor, which exchanges coordinates that are given in the wrong order. */
  function MakeRect(x0: int, y0: int, x1: int, y1: int): Rect {
    Rect(if x0 > x1 then x1 else x0, if y0 > y1 then y1 else y0, if x0 > x1 then x0 else x1, if y0 > y1 then y0 else y1)
  }

  datatype Region = Region(bounds: Rect, camera: string, primary: bool)

  function Max(a: int, b: int): int {
    if a > b then a else b
  }

  predicate Inside(a: Rect, b: Rect) {
    b.minX <= a.minX && a.maxX <= b.maxX && b.minY <= a.minY && a.maxY <= b.maxY
  }

  /** At least `gap` pixels of space between two rectangles. */
  predicate Apart(a: Rect, b: Rect, gap: nat) {
    || a.maxX + gap <= b.minX || b.maxX + gap <= a.minX
    || a.maxY + gap <= b.minY || b.maxY + gap <= a.minY
  }

  /** One region per camera in order, only the first primary, none empty, all inside the padded canvas and apart. */
  predicate WellPlaced(width: int, height: int, padding: nat, cameras: seq<string>, regions: seq<Region>) {
    && |regions| == |cameras|
    && (forall i :: 0 <= i < |regions| ==>
          && regions[i].camera == cameras[i]
          && (regions[i].primary <==> i == 0)
          && !regions[i].bounds.Empty()
          && Inside(regions[i].bounds, Rect(padding, padding, width - padding, height - padding)))
    && (forall i, j :: 0 <= i < j < |regions| ==> Apart(regions[i].bounds, regions[j].bounds, padding))
  }

  /** Regions that are apart share no pixel. */
  lemma ApartIsDisjoint(a: Rect, b: Rect, gap: nat, x: int, y: int)
    requires Apart(a, b, gap) && a.Holds(x, y)
    ensures !b.Holds(x, y)
  {
  }

  // ---------------------------------------------------------------- one axis cut into cells

  function CellSize(total: int, padding: nat, cells: nat): (size: nat)
    requires cells > 0
  {
    Max(1, total - padding * (cells + 1)) / cells
  }

  function CellStart(total: int, padding: nat, cells: nat, i: nat): int
    requires cells > 0
  {
    padding + i * (CellSize(total, padding, cells) + padding)
  }

  /** The last cell takes what the division leaves over. */
  function CellEnd(total: int, padding: nat, cells: nat, i: nat): int
    requires cells > 0
  {
    if i == cells - 1 then total - padding else CellStart(total, padding, cells, i) + CellSize(total, padding, cells)
  }

  /** Room for one pixel per cell and the padding around and between the cells. */
  predicate AxisFits(total: int, padding: nat, cells: nat) {
    total - padding * (cells + 1) >= cells
  }

  lemma Multiples(a: nat, b: nat, k: nat)
    requires a < b
    ensures a * k + k <= b * k
  {
    assert (b - a - 1) * k >= 0;
    assert b * k == a * k + k + (b - a - 1) * k;
  }

  lemma CellsFitTotal(total: int, padding: nat, cells: nat)
    requires cells > 0 && AxisFits(total, padding, cells)
    ensures CellSize(total, padding, cells) >= 1
    ensures cells * (CellSize(total, padding, cells) + padding) + padding <= total
  {
    var content := total - padding * (cells + 1);
    var size := CellSize(total, padding, cells);
    assert size == content / cells;
    assert cells * size <= content;
    assert cells * (size + padding) == cells * size + cells * padding;
    assert padding * (cells + 1) == cells * padding + padding;
  }

  lemma CellInside(total: int, padding: nat, cells: nat, i: nat)
    requires i < cells && AxisFits(total, padding, cells)
    ensures padding <= CellStart(total, padding, cells, i) < CellEnd(total, padding, cells, i) <= total - padding
  {
    CellsFitTotal(total, padding, cells);
    Multiples(i, cells, CellSize(total, padding, cells) + padding);
    hide CellSize;
    assert i * (CellSize(total, padding, cells) + padding) >= 0;
  }

  lemma CellsApart(total: int, padding: nat, cells: nat, i: nat, j: nat)
    requires i < j < cells
    ensures CellEnd(total, padding, cells, i) + padding <= CellStart(total, padding, cells, j)
  {
    Multiples(i, j, CellSize(total, padding, cells) + padding);
    hide CellSize;
  }

  /** Without the room the first cell has no pixel, or lies outside. */
  lemma FirstCellMissing(total: int, padding: nat, cells: nat)
    requires cells > 0 && !AxisFits(total, padding, cells)
    ensures CellStart(total, padding, cells, 0) == padding && CellEnd(total, padding, cells, 0) <= padding
  {
    if cells > 1 {
      assert CellSize(total, padding, cells) == 0;
    }
  }

  // ---------------------------------------------------------------- layouts

  function CellRect(x0: int, width: int, height: int, padding: nat, cols: nat, rows: nat, col: nat, row: nat): Rect
    requires cols > 0 && rows > 0
  {
    MakeRect(x0 + CellStart(width, padding, cols, col), CellStart(height, padding, rows, row),
             x0 + CellEnd(width, padding, cols, col), CellEnd(height, padding, rows, row))
  }

  function Row(i: nat, cols: nat): nat
    requires cols > 0
  {
    i / cols
  }

  function Col(i: nat, cols: nat): nat
    requires cols > 0
  {
    i % cols
  }

  function GridAt(width: int, height: int, padding: nat, cols: nat, rows: nat, cameras: seq<string>, i: nat): Region
    requires cols > 0 && rows > 0 && i < |cameras|
  {
    Region(CellRect(0, width, height, padding, cols, rows, Col(i, cols), Row(i, cols)), cameras[i], i == 0)
  }

  function Grid(width: int, height: int, padding: nat, cols: nat, rows: nat, cameras: seq<string>): seq<Region>
    requires cols > 0 && rows > 0
  {
    var n := if |cameras| < cols * rows then |cameras| else cols * rows;
    seq(n, i requires 0 <= i < n => GridAt(width, height, padding, cols, rows, cameras, i))
  }

  /** Cells in different places of a fitting grid. */
  lemma CellRects(x0: int, width: int, height: int, padding: nat, cols: nat, rows: nat, col: nat, row: nat)
    requires col < cols && row < rows && AxisFits(width, padding, cols) && AxisFits(height, padding, rows)
    ensures var r := CellRect(x0, width, height, padding, cols, rows, col, row);
      && r == Rect(x0 + CellStart(width, padding, cols, col), CellStart(height, padding, rows, row),
                   x0 + CellEnd(width, padding, cols, col), CellEnd(height, padding, rows, row))
      && !r.Empty() && Inside(r, Rect(x0 + padding, padding, x0 + width - padding, height - padding))
  {
    CellInside(width, padding, cols, col);
    CellInside(height, padding, rows, row);
    hide CellStart, CellEnd;
  }

  lemma CellRectsApart(x0: int, width: int, height: int, padding: nat, cols: nat, rows: nat, col: nat, row: nat, col': nat, row': nat)
    requires col < cols && row < rows && col' < cols && row' < rows && AxisFits(width, padding, cols) && AxisFits(height, padding, rows)
    requires col != col' || row != row'
    ensures Apart(CellRect(x0, width, height, padding, cols, rows, col, row), CellRect(x0, width, height, padding, cols, rows, col', row'), padding)
  {
    CellRects(x0, width, height, padding, cols, rows, col, row);
    CellRects(x0, width, height, padding, cols, rows, col', row');
    hide CellStart, CellEnd, CellRect;
    if col < col' {
      CellsApart(width, padding, cols, col, col');
    } else if col' < col {
      CellsApart(width, padding, cols, col', col);
    } else if row < row' {
      CellsApart(height, padding, rows, row, row');
    } else {
      CellsApart(height, padding, rows, row', row);
    }
  }

  lemma RowInRange(i: nat, cols: nat, rows: nat)
    requires cols > 0 && i < cols * rows
    ensures Row(i, cols) < rows && Col(i, cols) < cols
  {
    assert (i / cols) * cols <= i;
  }

  lemma DifferentCells(i: nat, j: nat, cols: nat)
    requires cols > 0 && i != j
    ensures Col(i, cols) != Col(j, cols) || Row(i, cols) != Row(j, cols)
  {
    var row, row' := i / cols, j / cols;
    assert i == row * cols + i % cols && j == row' * cols + j % cols;
  }

  /** A grid is well placed exactly when both axes have room for their cells. */
  lemma GridWellPlaced(width: int, height: int, padding: nat, cols: nat, rows: nat, cameras: seq<string>)
    requires cols > 0 && rows > 0 && 1 <= |cameras| <= cols * rows
    ensures WellPlaced(width, height, padding, cameras, Grid(width, height, padding, cols, rows, cameras))
       <==> AxisFits(width, padding, cols) && AxisFits(height, padding, rows)
  {
    var regions := Grid(width, height, padding, cols, rows, cameras);
    assert regions[0] == GridAt(width, height, padding, cols, rows, cameras, 0);
    if !AxisFits(width, padding, cols) {
      FirstCellMissing(width, padding, cols);
      hide CellStart, CellEnd;
      assert regions[0].bounds.Empty() || regions[0].bounds.minX < padding;
    } else if !AxisFits(height, padding, rows) {
      FirstCellMissing(height, padding, rows);
      hide CellStart, CellEnd;
      assert regions[0].bounds.Empty() || regions[0].bounds.minY < padding;
    } else {
      GridFits(width, height, padding, cols, rows, cameras);
    }
  }

  lemma GridCell(width: int, height: int, padding: nat, cols: nat, rows: nat, cameras: seq<string>, i: nat)
    requires cols > 0 && rows > 0 && i < |cameras| <= cols * rows
    requires AxisFits(width, padding, cols) && AxisFits(height, padding, rows)
    ensures var b := GridAt(width, height, padding, cols, rows, cameras, i).bounds;
      !b.Empty() && Inside(b, Rect(padding, padding, width - padding, height - padding))
  {
    RowInRange(i, cols, rows);
    CellRects(0, width, height, padding, cols, rows, Col(i, cols), Row(i, cols));
    hide CellRect, AxisFits, Row, Col;
  }

  lemma GridCellsApart(width: int, height: int, padding: nat, cols: nat, rows: nat, cameras: seq<string>, i: nat, j: nat)
    requires cols > 0 && rows > 0 && i < j < |cameras| <= cols * rows
    requires AxisFits(width, padding, cols) && AxisFits(height, padding, rows)
    ensures Apart(GridAt(width, height, padding, cols, rows, cameras, i).bounds, GridAt(width, height, padding, cols, rows, cameras, j).bounds, padding)
  {
    hide CellRect, AxisFits, Apart, Row, Col;
    RowInRange(i, cols, rows);
    RowInRange(j, cols, rows);
    DifferentCells(i, j, cols);
    CellRectsApart(0, width, height, padding, cols, rows, Col(i, cols), Row(i, cols), Col(j, cols), Row(j, cols));
  }

  lemma GridFits(width: int, height: int, padding: nat, cols: nat, rows: nat, cameras: seq<string>)
    requires cols > 0 && rows > 0 && 1 <= |cameras| <= cols * rows
    requires AxisFits(width, padding, cols) && AxisFits(height, padding, rows)
    ensures WellPlaced(width, height, padding, cameras, Grid(width, height, padding, cols, rows, cameras))
  {
    hide CellRect, AxisFits, Apart, Inside, Rect.Empty, Row, Col;
    var regions := Grid(width, height, padding, cols, rows, cameras);
    assert |regions| == |cameras|;
    forall i | 0 <= i < |regions|
      ensures !regions[i].bounds.Empty() && Inside(regions[i].bounds, Rect(padding, padding, width - padding, height - padding))
    {
      GridCell(width, height, padding, cols, rows, cameras, i);
    }
    forall i, j | 0 <= i < j < |regions|
      ensures Apart(regions[i].bounds, regions[j].bounds, padding)
    {
      GridCellsApart(width, height, padding, cols, rows, cameras, i, j);
    }
  }

  function SingleRegions(width: int, height: int, padding: nat, cameras: seq<string>): seq<Region> {
    if cameras == [] then []
    else [Region(MakeRect(padding, padding, width - padding, height - padding), cameras[0], true)]
  }

  function RailWidth(width: int, padding: nat): int {
    Max(160, (width - padding * 3) / 3)
  }

  function MainWidth(width: int, padding: nat): (w: int)
    ensures w >= 1
  {
    Max(1, width - padding * 3 - RailWidth(width, padding))
  }

  /** The rail's cells are those of a grid of two columns and four rows on what the main picture leaves. */
  function FocusAt(width: int, height: int, padding: nat, cameras: seq<string>, i: nat): Region
    requires i < |cameras|
  {
    var main := MainWidth(width, padding);
    if i == 0 then Region(MakeRect(padding, padding, padding + main, height - padding), cameras[0], true)
    else Region(CellRect(main + padding, width - main - padding, height, padding, 2, 4, Col(i - 1, 2), Row(i - 1, 2)), cameras[i], false)
  }

  function FocusRegions(width: int, height: int, padding: nat, cameras: seq<string>): seq<Region> {
    if |cameras| <= 1 then SingleRegions(width, height, padding, cameras)
    else
      var n := if |cameras| < 8 then |cameras| else 8;
      seq(n, i requires 0 <= i < n => FocusAt(width, height, padding, cameras, i))
  }

  predicate FocusFits(width: int, height: int, padding: nat) {
    AxisFits(width - MainWidth(width, padding) - padding, padding, 2) && AxisFits(height, padding, 4)
  }

  lemma FocusCell(width: int, height: int, padding: nat, cameras: seq<string>, i: nat)
    requires i < |cameras| <= 8 && FocusFits(width, height, padding)
    ensures var b, main := FocusAt(width, height, padding, cameras, i).bounds, MainWidth(width, padding);
      && !b.Empty() && Inside(b, Rect(padding, padding, width - padding, height - padding))
      && (if i == 0 then b.maxX == padding + main else b.minX >= padding + main + padding)
  {
    var main := MainWidth(width, padding);
    FocusRoom(width, height, padding);
    if i > 0 {
      RowInRange(i - 1, 2, 4);
      CellRects(main + padding, width - main - padding, height, padding, 2, 4, Col(i - 1, 2), Row(i - 1, 2));
    }
    hide CellRect, AxisFits, MainWidth, Row, Col, FocusFits, CellStart, CellEnd;
  }

  lemma FocusRoom(width: int, height: int, padding: nat)
    requires FocusFits(width, height, padding)
    ensures MainWidth(width, padding) + 4 * padding < width && 5 * padding < height
  {
    hide MainWidth;
  }

  lemma FocusCellsApart(width: int, height: int, padding: nat, cameras: seq<string>, i: nat, j: nat)
    requires i < j < |cameras| <= 8 && FocusFits(width, height, padding)
    ensures Apart(FocusAt(width, height, padding, cameras, i).bounds, FocusAt(width, height, padding, cameras, j).bounds, padding)
  {
    if i == 0 {
      FocusCell(width, height, padding, cameras, i);
      FocusCell(width, height, padding, cameras, j);
      hide FocusAt, FocusFits, MainWidth;
    } else {
      assert AxisFits(width - MainWidth(width, padding) - padding, padding, 2) && AxisFits(height, padding, 4);
      hide CellRect, AxisFits, MainWidth, Row, Col, Apart, FocusFits;
      RowInRange(i - 1, 2, 4);
      RowInRange(j - 1, 2, 4);
      DifferentCells(i - 1, j - 1, 2);
      var main := MainWidth(width, padding);
      CellRectsApart(main + padding, width - main - padding, height, padding, 2, 4, Col(i - 1, 2), Row(i - 1, 2), Col(j - 1, 2), Row(j - 1, 2));
    }
  }

  lemma FocusPlaced(width: int, height: int, padding: nat, cameras: seq<string>)
    requires 2 <= |cameras| <= 8 && FocusFits(width, height, padding)
    ensures WellPlaced(width, height, padding, cameras, FocusRegions(width, height, padding, cameras))
  {
    hide FocusFits, CellRect, Apart, Inside, Rect.Empty, Row, Col;
    var regions := FocusRegions(width, height, padding, cameras);
    assert |regions| == |cameras|;
    forall i | 0 <= i < |regions|
      ensures !regions[i].bounds.Empty() && Inside(regions[i].bounds, Rect(padding, padding, width - padding, height - padding))
    {
      FocusCell(width, height, padding, cameras, i);
    }
    forall i, j | 0 <= i < j < |regions|
      ensures Apart(regions[i].bounds, regions[j].bounds, padding)
    {
      FocusCellsApart(width, height, padding, cameras, i, j);
    }
  }

  lemma FocusMissing(width: int, height: int, padding: nat, cameras: seq<string>)
    requires 2 <= |cameras| <= 8 && !FocusFits(width, height, padding)
    ensures !WellPlaced(width, height, padding, cameras, FocusRegions(width, height, padding, cameras))
  {
    var regions := FocusRegions(width, height, padding, cameras);
    var main := MainWidth(width, padding);
    assert regions[1] == FocusAt(width, height, padding, cameras, 1);
    if AxisFits(width - main - padding, padding, 2) {
      FirstCellMissing(height, padding, 4);
      assert CellSize(height, padding, 4) == 0;
      assert regions[1].bounds.Empty();
    } else {
      FirstCellMissing(width - main - padding, padding, 2);
      assert CellSize(width - main - padding, padding, 2) == 0;
      assert regions[1].bounds.Empty();
    }
  }

  // ---------------------------------------------------------------- a plan's regions

  function Regions(width: int, height: int, padding: nat, plan: Plan): seq<Region> {
    match plan.mode
    case Grid4 => Grid(width, height, padding, 2, 2, plan.cameras)
    case Grid9 => Grid(width, height, padding, 3, 3, plan.cameras)
    case Grid16 => Grid(width, height, padding, 4, 4, plan.cameras)
    case Focus8 => FocusRegions(width, height, padding, plan.cameras)
    case Single => SingleRegions(width, height, padding, plan.cameras)
  }

  /** Whether the canvas is large enough for the plan. */
  predicate CanvasFits(width: int, height: int, padding: nat, plan: Plan) {
    match plan.mode
    case Grid4 => AxisFits(width, padding, 2) && AxisFits(height, padding, 2)
    case Grid9 => AxisFits(width, padding, 3) && AxisFits(height, padding, 3)
    case Grid16 => AxisFits(width, padding, 4) && AxisFits(height, padding, 4)
    case Focus8 =>
      if |plan.cameras| == 1 then width > 2 * padding && height > 2 * padding else FocusFits(width, height, padding)
    case Single => width > 2 * padding && height > 2 * padding
  }

  /** For every normalised plan, every canvas and padding, the regions are well placed exactly when the canvas is large enough. */
  lemma MosaicWellPlaced(width: int, height: int, padding: nat, plan: Plan)
    requires Normalised(plan)
    ensures WellPlaced(width, height, padding, plan.cameras, Regions(width, height, padding, plan)) <==> CanvasFits(width, height, padding, plan)
  {
    hide Grid, AxisFits, FocusFits;
    match plan.mode
    case Grid4 => GridWellPlaced(width, height, padding, 2, 2, plan.cameras);
    case Grid9 => GridWellPlaced(width, height, padding, 3, 3, plan.cameras);
    case Grid16 => GridWellPlaced(width, height, padding, 4, 4, plan.cameras);
    case Focus8 =>
      if |plan.cameras| == 1 {
        SinglePlaced(width, height, padding, plan.cameras);
      } else if FocusFits(width, height, padding) {
        FocusPlaced(width, height, padding, plan.cameras);
      } else {
        FocusMissing(width, height, padding, plan.cameras);
      }
    case Single => SinglePlaced(width, height, padding, plan.cameras);
  }

  lemma SinglePlaced(width: int, height: int, padding: nat, cameras: seq<string>)
    requires |cameras| == 1
    ensures WellPlaced(width, height, padding, cameras, SingleRegions(width, height, padding, cameras)) <==> width > 2 * padding && height > 2 * padding
    ensures width > 2 * padding && height > 2 * padding ==>
      SingleRegions(width, height, padding, cameras)[0].bounds == Rect(padding, padding, width - padding, height - padding)
  {
    var regions := SingleRegions(width, height, padding, cameras);
    assert !(width > 2 * padding && height > 2 * padding) ==>
      regions[0].bounds.Empty() || regions[0].bounds.minX < padding || regions[0].bounds.minY < padding;
  }

  /** A mode's capacity is the number of places that its layout has. */
  lemma CapacityIsPlaces(width: int, height: int, padding: nat, plan: Plan)
    ensures |Regions(width, height, padding, plan)| == if |plan.cameras| < Capacity(plan.mode) then |plan.cameras| else Capacity(plan.mode)
  {
    hide CellRect, GridAt, FocusAt;
  }

  /** Two cells of a fitting grid: one column shares its sides, columns follow each other with the padding between them,
      the first begins and the last ends a padding from the edge, and all but the last are equally wide. The same down. */
  ghost predicate InGrid(a: Rect, b: Rect, left: int, right: int, bottom: int, padding: nat, cols: nat, rows: nat, col: nat, row: nat, col': nat, row': nat) {
    && (col == col' ==> a.minX == b.minX && a.maxX == b.maxX) && (row == row' ==> a.minY == b.minY && a.maxY == b.maxY)
    && (col < col' ==> a.maxX + padding <= b.minX) && (row < row' ==> a.maxY + padding <= b.minY)
    && (col + 1 == col' ==> a.maxX + padding == b.minX) && (row + 1 == row' ==> a.maxY + padding == b.minY)
    && (col == 0 ==> a.minX == left) && (row == 0 ==> a.minY == padding)
    && (col == cols - 1 ==> a.maxX == right) && (row == rows - 1 ==> a.maxY == bottom)
    && (col < cols - 1 && col' < cols - 1 ==> a.maxX - a.minX == b.maxX - b.minX)
    && (row < rows - 1 && row' < rows - 1 ==> a.maxY - a.minY == b.maxY - b.minY)
  }

  lemma CellsFollow(total: int, padding: nat, cells: nat, i: nat, j: nat)
    requires i < cells && j < cells
    ensures CellStart(total, padding, cells, 0) == padding && CellEnd(total, padding, cells, cells - 1) == total - padding
    ensures i + 1 == j ==> CellEnd(total, padding, cells, i) + padding == CellStart(total, padding, cells, j)
    ensures i < cells - 1 && j < cells - 1 ==>
      CellEnd(total, padding, cells, i) - CellStart(total, padding, cells, i) == CellEnd(total, padding, cells, j) - CellStart(total, padding, cells, j)
  {
    var k := CellSize(total, padding, cells) + padding;
    assert (i + 1) * k == i * k + k;
  }

  lemma CellsInGrid(x0: int, width: int, height: int, padding: nat, cols: nat, rows: nat, col: nat, row: nat, col': nat, row': nat)
    requires col < cols && row < rows && col' < cols && row' < rows && AxisFits(width, padding, cols) && AxisFits(height, padding, rows)
    ensures InGrid(CellRect(x0, width, height, padding, cols, rows, col, row), CellRect(x0, width, height, padding, cols, rows, col', row'),
                   x0 + padding, x0 + width - padding, height - padding, padding, cols, rows, col, row, col', row')
  {
    CellRects(x0, width, height, padding, cols, rows, col, row);
    CellRects(x0, width, height, padding, cols, rows, col', row');
    CellsFollow(width, padding, cols, col, col');
    CellsFollow(height, padding, rows, row, row');
    hide CellStart, CellEnd, CellRect, AxisFits;
    if col < col' {
      CellsApart(width, padding, cols, col, col');
    }
    if row < row' {
      CellsApart(height, padding, rows, row, row');
    }
  }

  /** Cameras fill a grid row by row from the top left. */
  lemma GridPlaces(width: int, height: int, padding: nat, cols: nat, rows: nat, cameras: seq<string>, i: nat, j: nat)
    requires cols > 0 && rows > 0 && i < |cameras| <= cols * rows && j < |cameras|
    requires AxisFits(width, padding, cols) && AxisFits(height, padding, rows)
    ensures var regions := Grid(width, height, padding, cols, rows, cameras);
      InGrid(regions[i].bounds, regions[j].bounds, padding, width - padding, height - padding, padding, cols, rows, i % cols, i / cols, j % cols, j / cols)
  {
    RowInRange(i, cols, rows);
    RowInRange(j, cols, rows);
    CellsInGrid(0, width, height, padding, cols, rows, Col(i, cols), Row(i, cols), Col(j, cols), Row(j, cols));
    hide CellRect, AxisFits, InGrid;
  }

  /** The main picture takes the left side from top to bottom. Of the width without padding the rail gets a third, or 160
      pixels if that is more, and the main picture the rest. */
  lemma FocusMain(width: int, height: int, padding: nat, cameras: seq<string>)
    requires 2 <= |cameras| <= 8 && FocusFits(width, height, padding)
    ensures var main := FocusRegions(width, height, padding, cameras)[0].bounds;
      && main.minX == padding && main.minY == padding && main.maxY == height - padding
      && main.maxX == padding + MainWidth(width, padding)
      && var room := width - 3 * padding;
         var rail := if room < 483 then 160 else room / 3;
         main.maxX - main.minX == if room > rail then room - rail else 1
  {
    FocusRoom(width, height, padding);
    hide FocusFits, CellRect;
  }

  /** The other cameras fill two columns of four beside the main picture, row by row. */
  lemma FocusPlaces(width: int, height: int, padding: nat, cameras: seq<string>, i: nat, j: nat)
    requires 1 <= i < |cameras| <= 8 && 1 <= j < |cameras| && FocusFits(width, height, padding)
    ensures var regions := FocusRegions(width, height, padding, cameras);
      InGrid(regions[i].bounds, regions[j].bounds, regions[0].bounds.maxX + padding, width - padding, height - padding, padding, 2, 4,
             (i - 1) % 2, (i - 1) / 2, (j - 1) % 2, (j - 1) / 2)
  {
    FocusMain(width, height, padding, cameras);
    FocusThumbs(width, height, padding, cameras, i, j);
    hide *;
  }

  lemma FocusThumbs(width: int, height: int, padding: nat, cameras: seq<string>, i: nat, j: nat)
    requires 1 <= i < |cameras| <= 8 && 1 <= j < |cameras| && FocusFits(width, height, padding)
    ensures var regions, main := FocusRegions(width, height, padding, cameras), MainWidth(width, padding);
      InGrid(regions[i].bounds, regions[j].bounds, main + padding + padding, width - padding, height - padding, padding, 2, 4,
             (i - 1) % 2, (i - 1) / 2, (j - 1) % 2, (j - 1) / 2)
  {
    hide CellRect, AxisFits, InGrid, MainWidth;
    ThumbRect(width, height, padding, cameras, i);
    ThumbRect(width, height, padding, cameras, j);
    hide FocusRegions;
    var main := MainWidth(width, padding);
    CellsInGrid(main + padding, width - main - padding, height, padding, 2, 4, (i - 1) % 2, (i - 1) / 2, (j - 1) % 2, (j - 1) / 2);
  }

  lemma ThumbRect(width: int, height: int, padding: nat, cameras: seq<string>, i: nat)
    requires 1 <= i < |cameras| <= 8
    ensures var main := MainWidth(width, padding);
      && (i - 1) % 2 < 2 && (i - 1) / 2 < 4
      && FocusRegions(width, height, padding, cameras)[i].bounds
           == CellRect(main + padding, width - main - padding, height, padding, 2, 4, (i - 1) % 2, (i - 1) / 2)
  {
    hide CellRect, MainWidth;
  }

  /** On a large enough canvas no pixel is drawn by two cameras of a plan. */
  lemma EachPixelOnce(width: int, height: int, padding: nat, plan: Plan, i: nat, j: nat, x: int, y: int)
    requires Normalised(plan) && CanvasFits(width, height, padding, plan)
    requires i < |Regions(width, height, padding, plan)| && j < |Regions(width, height, padding, plan)|
    requires Regions(width, height, padding, plan)[i].bounds.Holds(x, y) && Regions(width, height, padding, plan)[j].bounds.Holds(x, y)
    ensures i == j
  {
    MosaicWellPlaced(width, height, padding, plan);
    hide CanvasFits, Apart, Regions;
    var regions := Regions(width, height, padding, plan);
    if i < j {
      ApartIsDisjoint(regions[i].bounds, regions[j].bounds, padding, x, y);
    } else if j < i {
      ApartIsDisjoint(regions[j].bounds, regions[i].bounds, padding, x, y);
    }
  }

  // ---------------------------------------------------------------- as computed

  lemma OneMore(all: seq<Region>, i: nat)
    requires i < |all|
    ensures all[..i] + [all[i]] == all[..i + 1]
    ensures i + 1 == |all| ==> all[..i + 1] == all
  {
  }

  method GridRegions(width: int, height: int, padding: nat, cols: int, rows: int, cameras: seq<string>) returns (regions: seq<Region>)
    ensures regions == if cols <= 0 || rows <= 0 || cameras == [] then [] else Grid(width, height, padding, cols, rows, cameras)
  {
    regions := [];
    if cols <= 0 || rows <= 0 || cameras == [] {
      return;
    }
    var contentWidth := Max(1, width - padding * (cols + 1));
    var contentHeight := Max(1, height - padding * (rows + 1));
    var cellWidth, cellHeight := contentWidth / cols, contentHeight / rows;
    ghost var grid := Grid(width, height, padding, cols, rows, cameras);
    assert cellWidth == CellSize(width, padding, cols) && cellHeight == CellSize(height, padding, rows);
    hide CellSize, GridAt, Max;
    for index := 0 to |cameras|
      invariant regions == if index <= |grid| then grid[..index] else grid
    {
      if index >= cols * rows {
        break;
      }
      var region := GridRegion(width, height, padding, cols, rows, cameras, index, cellWidth, cellHeight);
      OneMore(grid, index);
      regions := regions + [region];
    }
  }

  method GridRegion(width: int, height: int, padding: nat, cols: nat, rows: nat, cameras: seq<string>, index: nat, cellWidth: nat, cellHeight: nat) returns (r: Region)
    requires cols > 0 && rows > 0 && index < |cameras|
    requires cellWidth == CellSize(width, padding, cols) && cellHeight == CellSize(height, padding, rows)
    ensures r == GridAt(width, height, padding, cols, rows, cameras, index)
  {
    hide CellSize, MakeRect;
    var row, col := index / cols, index % cols;
    var left, top := padding + col * (cellWidth + padding), padding + row * (cellHeight + padding);
    var right, bottom := left + cellWidth, top + cellHeight;
    if col == cols - 1 {
      right := width - padding;
    }
    if row == rows - 1 {
      bottom := height - padding;
    }
    r := Region(MakeRect(left, top, right, bottom), cameras[index], index == 0);
  }

  lemma RailCells(width: int, height: int, padding: nat, main: int)
    ensures Max(1, Max(1, width - (padding + main + padding) - padding) - padding) / 2 == CellSize(width - main - padding, padding, 2)
    ensures Max(1, height - padding * 5) / 4 == CellSize(height, padding, 4)
  {
  }

  method FocusLayout(width: int, height: int, padding: nat, cameras: seq<string>) returns (regions: seq<Region>)
    ensures regions == FocusRegions(width, height, padding, cameras)
  {
    if |cameras| <= 1 {
      return SingleRegions(width, height, padding, cameras);
    }
    var rail := Max(160, (width - padding * 3) / 3);
    var main := Max(1, width - padding * 3 - rail);
    regions := [Region(MakeRect(padding, padding, padding + main, height - padding), cameras[0], true)];
    var thumbLeft := padding + main + padding;
    var thumbWidth := Max(1, width - thumbLeft - padding);
    var thumbHeight := Max(1, height - padding * 5) / 4;
    var cellWidth := Max(1, thumbWidth - padding) / 2;
    ghost var focus := FocusRegions(width, height, padding, cameras);
    assert main == MainWidth(width, padding) && thumbLeft == main + padding + padding;
    RailCells(width, height, padding, main);
    hide MainWidth, CellSize, CellRect, MakeRect, Max;
    for index := 0 to |cameras| - 1
      invariant regions == if index + 1 <= |focus| then focus[..index + 1] else focus
    {
      if index >= 7 {
        break;
      }
      var thumb := Thumb(width, height, padding, cameras, index, thumbLeft, cellWidth, thumbHeight);
      OneMore(focus, index + 1);
      regions := regions + [thumb];
    }
  }

  method Thumb(width: int, height: int, padding: nat, cameras: seq<string>, index: nat, thumbLeft: int, cellWidth: nat, thumbHeight: nat) returns (r: Region)
    requires index + 1 < |cameras|
    requires var main := MainWidth(width, padding);
      thumbLeft == main + padding + padding && cellWidth == CellSize(width - main - padding, padding, 2) && thumbHeight == CellSize(height, padding, 4)
    ensures r == FocusAt(width, height, padding, cameras, index + 1)
  {
    hide MainWidth, CellSize, MakeRect;
    var row, col := index / 2, index % 2;
    var left, top := thumbLeft + col * (cellWidth + padding), padding + row * (thumbHeight + padding);
    var right, bottom := left + cellWidth, top + thumbHeight;
    if col == 1 {
      right := width - padding;
    }
    if row == 3 {
      bottom := height - padding;
    }
    r := Region(MakeRect(left, top, right, bottom), cameras[index + 1], false);
  }

  method CompositeRegions(width: int, height: int, padding: nat, plan: Plan) returns (regions: seq<Region>)
    ensures regions == Regions(width, height, padding, plan)
    ensures plan.mode == Grid4 ==> regions == Grid(width, height, padding, 2, 2, plan.cameras)
    ensures plan.mode == Grid9 ==> regions == Grid(width, height, padding, 3, 3, plan.cameras)
    ensures plan.mode == Grid16 ==> regions == Grid(width, height, padding, 4, 4, plan.cameras)
    ensures Normalised(plan) ==> (WellPlaced(width, height, padding, plan.cameras, regions) <==> CanvasFits(width, height, padding, plan))
  {
    match plan.mode {
      case Grid4 => regions := GridRegions(width, height, padding, 2, 2, plan.cameras);
      case Grid9 => regions := GridRegions(width, height, padding, 3, 3, plan.cameras);
      case Grid16 => regions := GridRegions(width, height, padding, 4, 4, plan.cameras);
      case Focus8 => regions := FocusLayout(width, height, padding, plan.cameras);
      case Single => regions := SingleRegions(width, height, padding, plan.cameras);
    }
    if Normalised(plan) {
      MosaicWellPlaced(width, height, padding, plan);
    }
  }
}
