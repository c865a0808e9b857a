/** The blocks of reserved modules, their areas, and what they leave for codeword bits. */
module QrCapacity {
  import opened Common
  import opened QrTables
  import opened QrLayout

  /** A block of cells. */
  datatype Rect = Rect(top: int, left: int, height: nat, width: nat)

  predicate InRect(cell: Cell, r: Rect) {
    r.top <= cell.row < r.top + r.height && r.left <= cell.col < r.left + r.width
  }

  ghost function RowCells(row: int, left: int, width: nat): (cells: set<Cell>)
    ensures |cells| == width
    ensures forall cell :: cell in cells <==> cell.row == row && left <= cell.col < left + width
  {
    if width == 0 then {} else RowCells(row, left, width - 1) + {Cell(row, left + width - 1)}
  }

  ghost function RectCells(r: Rect): (cells: set<Cell>)
    ensures forall cell :: cell in cells <==> InRect(cell, r)
    decreases r.height
  {
    if r.height == 0 then {}
    else
      RectCells(Rect(r.top, r.left, r.height - 1, r.width)) + RowCells(r.top + r.height - 1, r.left, r.width)
  }

  lemma {:induction false} RectSize(r: Rect)
    ensures |RectCells(r)| == r.height * r.width
    decreases r.height
  {
    hide RowCells, RectCells;
    if r.height == 0 {
      NoRows(r);
    } else {
      var upper := Rect(r.top, r.left, r.height - 1, r.width);
      var last := RowCells(r.top + r.height - 1, r.left, r.width);
      RectSize(upper);
      OneRowMore(r);
      DisjointSize(RectCells(upper), last);
      GridAreaStep(r.height - 1, r.width);
    }
  }

  lemma NoRows(r: Rect)
    requires r.height == 0
    ensures RectCells(r) == {} && r.height * r.width == 0
  {}

  lemma OneRowMore(r: Rect)
    requires r.height > 0
    ensures RectCells(r) == RectCells(Rect(r.top, r.left, r.height - 1, r.width)) + RowCells(r.top + r.height - 1, r.left, r.width)
  {
    hide RowCells;
  }

  lemma DisjointSize(a: set<Cell>, b: set<Cell>)
    requires forall cell :: cell in a ==> cell !in b
    ensures |a + b| == |a| + |b|
  {
    assert a !! b;
  }

  predicate InSome(cell: Cell, rects: seq<Rect>) {
    exists r :: r in rects && InRect(cell, r)
  }

  function Area(rects: seq<Rect>): nat {
    if rects == [] then 0
    else Area(rects[..|rects| - 1]) + rects[|rects| - 1].height * rects[|rects| - 1].width
  }

  // Cells covered by the rectangles are no more than their areas.
  ghost function Cover(rects: seq<Rect>): (cells: set<Cell>)
    ensures |cells| <= Area(rects)
    ensures forall cell :: cell in cells <==> InSome(cell, rects)
  {
    if rects == [] then {}
    else
      var front, last := rects[..|rects| - 1], rects[|rects| - 1];
      assert rects == front + [last];
      RectSize(last);
      Cover(front) + RectCells(last)
  }

  lemma {:induction false} AreaConcat(a: seq<Rect>, b: seq<Rect>)
    ensures Area(a + b) == Area(a) + Area(b)
  {
    if b == [] {
      assert a + b == a;
    } else {
      var k := |b| - 1;
      assert (a + b)[..|a| + k] == a + b[..k];
      AreaConcat(a, b[..k]);
    }
  }

  // ---------------------------------------------------------------------------
  // Rectangles in rows and columns

  /** A rectangle of the given shape at every crossing, its corner off the crossing
      by (up, back). */
  function RectRow(row: int, cols: seq<nat>, up: int, back: int, height: nat, width: nat): (rects: seq<Rect>)
    ensures |rects| == |cols|
  {
    seq(|cols|, j requires 0 <= j < |cols| => Rect(row - up, cols[j] - back, height, width))
  }

  function RectGrid(rows: seq<nat>, cols: seq<nat>, up: int, back: int, height: nat, width: nat): seq<Rect> {
    if rows == [] then []
    else
      RectGrid(rows[..|rows| - 1], cols, up, back, height, width)
      + RectRow(rows[|rows| - 1], cols, up, back, height, width)
  }

  lemma {:induction false} RectRowArea(row: int, cols: seq<nat>, up: int, back: int, height: nat, width: nat)
    ensures Area(RectRow(row, cols, up, back, height, width)) == |cols| * (height * width)
  {
    if cols != [] {
      var k := |cols| - 1;
      RectRowArea(row, cols[..k], up, back, height, width);
      assert RectRow(row, cols, up, back, height, width)[..k] == RectRow(row, cols[..k], up, back, height, width);
      assert |cols| * (height * width) == k * (height * width) + height * width;
    }
  }

  lemma {:induction false} RectGridArea(rows: seq<nat>, cols: seq<nat>, up: int, back: int, height: nat, width: nat)
    ensures Area(RectGrid(rows, cols, up, back, height, width)) == |rows| * (|cols| * (height * width))
  {
    if rows != [] {
      var k := |rows| - 1;
      RectGridArea(rows[..k], cols, up, back, height, width);
      RectRowArea(rows[k], cols, up, back, height, width);
      AreaConcat(RectGrid(rows[..k], cols, up, back, height, width), RectRow(rows[k], cols, up, back, height, width));
      GridAreaStep(k, |cols| * (height * width));
    }
  }

  lemma GridAreaStep(k: nat, area: nat)
    ensures (k + 1) * area == k * area + area
  {}

  lemma {:induction false} InRectGrid(cell: Cell, rows: seq<nat>, cols: seq<nat>, up: int, back: int, height: nat, width: nat, i: nat, j: nat)
    requires i < |rows| && j < |cols| && InRect(cell, Rect(rows[i] - up, cols[j] - back, height, width))
    ensures InSome(cell, RectGrid(rows, cols, up, back, height, width))
    decreases |rows|
  {
    var k := |rows| - 1;
    var upper, last := RectGrid(rows[..k], cols, up, back, height, width), RectRow(rows[k], cols, up, back, height, width);
    if i < k {
      InRectGrid(cell, rows[..k], cols, up, back, height, width, i, j);
      var r :| r in upper && InRect(cell, r);
      assert r in upper + last;
    } else {
      assert last[j] in upper + last;
    }
  }

  // ---------------------------------------------------------------------------
  // The reserved cells outside column 6

  function Corners(size: nat): seq<Rect>
    requires size >= 21
  {
    [Rect(0, 0, 9, 6), Rect(0, 7, 9, 2), Rect(0, size - 8, 9, 8),
     Rect(size - 8, 0, 8, 6), Rect(size - 8, 7, 8, 2), Rect(6, 9, 1, size - 17)]
  }

  function VersionBlocks(version: nat, size: nat): seq<Rect>
    requires size >= 21
  {
    if version >= 7 then [Rect(0, size - 11, 6, 3), Rect(size - 11, 0, 3, 6)] else []
  }

  // Patterns that straddle a timing line, without that line, and the others.
  function AlignmentBlocks(at: seq<nat>): seq<Rect>
    requires |at| >= 2
  {
    var middle, later := at[1..|at| - 1], at[1..];
    RectGrid([6], middle, 2, 2, 2, 5) + RectGrid([6], middle, -1, 2, 2, 5)
    + RectGrid(middle, [6], 2, 2, 5, 2) + RectGrid(middle, [6], 2, -1, 5, 2)
    + RectGrid(later, later, 2, 2, 5, 5)
  }

  function Blocks(version: nat): seq<Rect>
    requires IsVersion(version)
  {
    var size, at := SizeOf(version), Alignment(version);
    Corners(size) + VersionBlocks(version, size) + (if |at| >= 2 then AlignmentBlocks(at) else [])
  }

  lemma InSomeConcat(cell: Cell, a: seq<Rect>, b: seq<Rect>)
    ensures InSome(cell, a + b) <==> InSome(cell, a) || InSome(cell, b)
  {
    if InSome(cell, a) {
      var r :| r in a && InRect(cell, r);
      assert r in a + b;
    }
    if InSome(cell, b) {
      var r :| r in b && InRect(cell, r);
      assert r in a + b;
    }
  }

  lemma {:induction false} FindColumn(size: nat, cell: Cell, row: int, cols: seq<nat>) returns (j: nat)
    requires InAlignmentRow(size, cell, row, cols)
    ensures j < |cols| && !FinderOverlap(row, cols[j], size) && InAlignment(cell, row, cols[j])
    decreases |cols|
  {
    var k := |cols| - 1;
    if InAlignmentRow(size, cell, row, cols[..k]) {
      j := FindColumn(size, cell, row, cols[..k]);
    } else {
      j := k;
    }
  }

  lemma {:induction false} FindCentre(size: nat, cell: Cell, rows: seq<nat>, cols: seq<nat>) returns (i: nat, j: nat)
    requires InSomeAlignment(size, cell, rows, cols)
    ensures i < |rows| && j < |cols| && !FinderOverlap(rows[i], cols[j], size) && InAlignment(cell, rows[i], cols[j])
    decreases |rows|
  {
    var k := |rows| - 1;
    if InSomeAlignment(size, cell, rows[..k], cols) {
      i, j := FindCentre(size, cell, rows[..k], cols);
    } else {
      i := k;
      j := FindColumn(size, cell, rows[k], cols);
    }
  }

  lemma InTimingRow(size: nat, cell: Cell)
    requires size >= 21 && cell.row == 6 && 9 <= cell.col < size - 8
    ensures InSome(cell, Corners(size))
  {
    assert InRect(cell, Corners(size)[5]);
  }

  // A rectangle of one of the five groups is an alignment block.
  lemma InBlocks(cell: Cell, at: seq<nat>)
    requires |at| >= 2
    ensures var middle, later := at[1..|at| - 1], at[1..];
      InSome(cell, RectGrid([6], middle, 2, 2, 2, 5)) || InSome(cell, RectGrid([6], middle, -1, 2, 2, 5))
      || InSome(cell, RectGrid(middle, [6], 2, 2, 5, 2)) || InSome(cell, RectGrid(middle, [6], 2, -1, 5, 2))
      || InSome(cell, RectGrid(later, later, 2, 2, 5, 5))
      ==> InSome(cell, AlignmentBlocks(at))
  {
    hide RectGrid, InSome;
    var middle, later := at[1..|at| - 1], at[1..];
    var r0, r1 := RectGrid([6], middle, 2, 2, 2, 5), RectGrid([6], middle, -1, 2, 2, 5);
    var c0, c1 := RectGrid(middle, [6], 2, 2, 5, 2), RectGrid(middle, [6], 2, -1, 5, 2);
    InSomeConcat(cell, r0, r1);
    InSomeConcat(cell, r0 + r1, c0);
    InSomeConcat(cell, r0 + r1 + c0, c1);
    InSomeConcat(cell, r0 + r1 + c0 + c1, RectGrid(later, later, 2, 2, 5, 5));
  }

  // A pattern whose centre is on the timing row reaches past it by two on both sides.
  lemma RowCovered(size: nat, at: seq<nat>, cell: Cell, j: nat)
    requires size >= 21 && |at| >= 2 && 0 < j < |at| - 1 && InAlignment(cell, 6, at[j]) && 11 <= at[j] <= size - 11
    ensures InSome(cell, AlignmentBlocks(at)) || InSome(cell, Corners(size))
  {
    hide InSome, RectGrid, AlignmentBlocks, Corners;
    var middle := at[1..|at| - 1];
    assert middle[j - 1] == at[j];
    InBlocks(cell, at);
    if cell.row < 6 {
      InRectGrid(cell, [6], middle, 2, 2, 2, 5, 0, j - 1);
    } else if cell.row > 6 {
      InRectGrid(cell, [6], middle, -1, 2, 2, 5, 0, j - 1);
    } else {
      InTimingRow(size, cell);
    }
  }

  lemma ColumnCovered(at: seq<nat>, cell: Cell, i: nat)
    requires |at| >= 2 && 0 < i < |at| - 1 && InAlignment(cell, at[i], 6) && cell.col != 6
    ensures InSome(cell, AlignmentBlocks(at))
  {
    hide InSome, RectGrid, AlignmentBlocks;
    var middle := at[1..|at| - 1];
    assert middle[i - 1] == at[i];
    InBlocks(cell, at);
    if cell.col < 6 {
      InRectGrid(cell, middle, [6], 2, 2, 5, 2, i - 1, 0);
    } else {
      InRectGrid(cell, middle, [6], 2, -1, 5, 2, i - 1, 0);
    }
  }

  lemma AlignmentCovered(version: nat, cell: Cell)
    requires IsVersion(version) && |Alignment(version)| >= 2 && cell.col != 6
    requires InSomeAlignment(SizeOf(version), cell, Alignment(version), Alignment(version))
    ensures InSome(cell, AlignmentBlocks(Alignment(version))) || InSome(cell, Corners(SizeOf(version)))
  {
    hide Alignment, InSome, RectGrid, AlignmentBlocks, InSomeAlignment, Corners;
    var size, at := SizeOf(version), Alignment(version);
    AlignmentFacts(version);
    var i, j := FindCentre(size, cell, at, at);
    if i == 0 {
      RowCovered(size, at, cell, j);
    } else if j == 0 {
      ColumnCovered(at, cell, i);
    } else {
      var later := at[1..];
      assert later[i - 1] == at[i] && later[j - 1] == at[j];
      InRectGrid(cell, later, later, 2, 2, 5, 5, i - 1, j - 1);
      InBlocks(cell, at);
    }
  }

  lemma CornersCover(size: nat, cell: Cell)
    requires size >= 21 && OnGrid(size, cell) && cell.col != 6
    requires InSomeFinder(size, cell) || InTiming(size, cell) || IsDarkModule(size, cell) || InFormat(size, cell)
    ensures InSome(cell, Corners(size))
  {
    var c := Corners(size);
    if InFormat(size, cell) {
      var index, second :| 0 <= index < 15 && cell == FormatCell(size, index, second);
      assert (cell.row == 8 && (cell.col <= 8 || cell.col >= size - 8))
          || (cell.col == 8 && (cell.row <= 8 || cell.row >= size - 8));
    }
    assert InRect(cell, c[0]) || InRect(cell, c[1]) || InRect(cell, c[2])
        || InRect(cell, c[3]) || InRect(cell, c[4]) || InRect(cell, c[5]);
  }

  lemma ReservedCovered(version: nat, cell: Cell)
    requires IsVersion(version) && Reserved(version, cell) && cell.col != 6
    ensures InSome(cell, Blocks(version))
  {
    hide InSome, InSomeAlignment, InFormat, InSomeFinder, Corners, AlignmentBlocks, VersionBlocks;
    var size, at := SizeOf(version), Alignment(version);
    AlignmentFacts(version);
    var aligned := if |at| >= 2 then AlignmentBlocks(at) else [];
    InSomeConcat(cell, Corners(size), VersionBlocks(version, size));
    InSomeConcat(cell, Corners(size) + VersionBlocks(version, size), aligned);
    if InVersion(version, size, cell) {
      VersionCovered(version, size, cell);
    } else if InSomeAlignment(size, cell, at, at) {
      if |at| >= 2 {
        AlignmentCovered(version, cell);
      } else {
        NoAlignment(size, cell);
      }
    } else {
      CornersCover(size, cell);
    }
  }

  lemma NoAlignment(size: nat, cell: Cell)
    ensures !InSomeAlignment(size, cell, [], [])
  {}

  lemma VersionCovered(version: nat, size: nat, cell: Cell)
    requires size >= 21 && InVersion(version, size, cell)
    ensures InSome(cell, VersionBlocks(version, size))
  {
    var blocks := VersionBlocks(version, size);
    assert InRect(cell, blocks[0]) || InRect(cell, blocks[1]);
  }

  // ---------------------------------------------------------------------------
  // Counting

  ghost function SetOf(cells: seq<Cell>): (s: set<Cell>)
    ensures forall cell :: cell in s <==> cell in cells
    ensures Distinct(cells) ==> |s| == |cells|
  {
    if cells == [] then {}
    else
      var front, last := cells[..|cells| - 1], cells[|cells| - 1];
      assert cells == front + [last];
      SetOf(front) + {last}
  }

  lemma AlignmentArea(at: seq<nat>)
    requires |at| >= 2
    ensures Area(AlignmentBlocks(at)) == 40 * (|at| - 2) + (|at| - 1) * ((|at| - 1) * 25)
  {
    hide RectGrid, Area;
    var middle, later := at[1..|at| - 1], at[1..];
    var r0, r1 := RectGrid([6], middle, 2, 2, 2, 5), RectGrid([6], middle, -1, 2, 2, 5);
    var c0, c1 := RectGrid(middle, [6], 2, 2, 5, 2), RectGrid(middle, [6], 2, -1, 5, 2);
    var inner := RectGrid(later, later, 2, 2, 5, 5);
    RectGridArea([6], middle, 2, 2, 2, 5);
    RectGridArea([6], middle, -1, 2, 2, 5);
    RectGridArea(middle, [6], 2, 2, 5, 2);
    RectGridArea(middle, [6], 2, -1, 5, 2);
    RectGridArea(later, later, 2, 2, 5, 5);
    AreaConcat(r0, r1);
    AreaConcat(r0 + r1, c0);
    AreaConcat(r0 + r1 + c0, c1);
    AreaConcat(r0 + r1 + c0 + c1, inner);
  }

  lemma AreaOfOne(r: Rect)
    ensures Area([r]) == r.height * r.width
  {
    assert [r][..0] == [];
  }

  lemma CornersArea(size: nat)
    requires size >= 21
    ensures Area(Corners(size)) == 208 + (size - 17)
  {
    var c := Corners(size);
    assert c == [c[0]] + [c[1]] + [c[2]] + [c[3]] + [c[4]] + [c[5]];
    forall i | 0 <= i < 6
      ensures Area([c[i]]) == c[i].height * c[i].width
    {
      AreaOfOne(c[i]);
    }
    AreaConcat([c[0]], [c[1]]);
    AreaConcat([c[0]] + [c[1]], [c[2]]);
    AreaConcat([c[0]] + [c[1]] + [c[2]], [c[3]]);
    AreaConcat([c[0]] + [c[1]] + [c[2]] + [c[3]], [c[4]]);
    AreaConcat([c[0]] + [c[1]] + [c[2]] + [c[3]] + [c[4]], [c[5]]);
  }

  lemma VersionArea(version: nat, size: nat)
    requires size >= 21
    ensures Area(VersionBlocks(version, size)) == if version >= 7 then 36 else 0
  {
    if version >= 7 {
      var v := VersionBlocks(version, size);
      assert v == [v[0]] + [v[1]];
      AreaConcat([v[0]], [v[1]]);
      AreaOfOne(v[0]);
      AreaOfOne(v[1]);
    }
  }

  lemma BlocksArea(version: nat)
    requires IsVersion(version)
    ensures var n := |Alignment(version)|;
      Area(Blocks(version)) == 208 + (SizeOf(version) - 17) + (if version >= 7 then 36 else 0)
        + (if n >= 2 then 40 * (n - 2) + (n - 1) * ((n - 1) * 25) else 0)
  {
    hide Corners, VersionBlocks, AlignmentBlocks, Alignment;
    var size, at := SizeOf(version), Alignment(version);
    var aligned := if |at| >= 2 then AlignmentBlocks(at) else [];
    CornersArea(size);
    VersionArea(version, size);
    if |at| >= 2 { AlignmentArea(at); }
    AreaConcat(Corners(size), VersionBlocks(version, size));
    AreaConcat(Corners(size) + VersionBlocks(version, size), aligned);
  }

  ghost function RawModules(version: nat): int
    requires IsVersion(version)
  {
    var n := |Alignment(version)|;
    SizeOf(version) * (SizeOf(version) - 1)
      - (208 + (SizeOf(version) - 17) + (if version >= 7 then 36 else 0)
         + (if n >= 2 then 40 * (n - 2) + (n - 1) * ((n - 1) * 25) else 0))
  }

  lemma RawModulesTable(version: nat)
    requires IsVersion(version)
    ensures RawModules(version) == 8 * TotalCodewords(version) + RemainderBits(version)
  {
    if version <= 7 {
      SmallVersions(version);
    } else if version <= 14 {
      MiddleVersions(version);
    } else {
      LargeVersions(version);
    }
  }

  lemma SmallVersions(version: nat)
    requires 1 <= version <= 7
    ensures RawModules(version) == 8 * TotalCodewords(version) + RemainderBits(version)
  {
    match version
    case 1 => case 2 => case 3 => case 4 => case 5 => case 6 => case _ =>
  }

  lemma MiddleVersions(version: nat)
    requires 8 <= version <= 14
    ensures RawModules(version) == 8 * TotalCodewords(version) + RemainderBits(version)
  {
    match version
    case 8 => case 9 => case 10 => case 11 => case 12 => case 13 => case _ =>
  }

  lemma LargeVersions(version: nat)
    requires 15 <= version <= 20
    ensures RawModules(version) == 8 * TotalCodewords(version) + RemainderBits(version)
  {
    match version
    case 15 => case 16 => case 17 => case 18 => case 19 => case _ =>
  }
}
