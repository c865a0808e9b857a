/** The reserved modules outside column 6 are exactly the listed blocks, which do not
    overlap: so the free modules can be counted. */
module QrReserved {
  import opened QrTables
  import opened QrLayout
  import opened QrCapacity

  // ---------------------------------------------------------------------------
  // Rectangles that do not overlap

  ghost predicate Apart(a: seq<Rect>, b: seq<Rect>) {
    forall cell :: InSome(cell, a) ==> !InSome(cell, b)
  }

  /** The rectangles cover as many cells as their areas say. */
  ghost predicate IsTight(rects: seq<Rect>) {
    |Cover(rects)| == Area(rects)
  }

  lemma TightConcat(a: seq<Rect>, b: seq<Rect>)
    requires IsTight(a) && IsTight(b) && Apart(a, b)
    ensures IsTight(a + b)
  {
    hide Cover, Area, InSome;
    AreaConcat(a, b);
    forall cell
      ensures cell in Cover(a + b) <==> cell in Cover(a) + Cover(b)
    {
      InSomeConcat(cell, a, b);
    }
    assert Cover(a + b) == Cover(a) + Cover(b);
    DisjointSize(Cover(a), Cover(b));
  }

  lemma InOne(cell: Cell, r: Rect)
    ensures InSome(cell, [r]) <==> InRect(cell, r)
  {
    if InRect(cell, r) { assert r in [r]; }
  }

  lemma TightOne(r: Rect)
    ensures IsTight([r])
  {
    hide Cover, Area, InSome, RectCells;
    RectSize(r);
    AreaOfOne(r);
    forall cell
      ensures cell in Cover([r]) <==> cell in RectCells(r)
    {
      InOne(cell, r);
    }
    assert Cover([r]) == RectCells(r);
  }

  lemma TightNone()
    ensures IsTight([])
  {}

  // ---------------------------------------------------------------------------
  // Rectangles in rows and columns

  lemma FindInRow(cell: Cell, row: int, cols: seq<nat>, up: int, back: int, height: nat, width: nat) returns (j: nat)
    requires InSome(cell, RectRow(row, cols, up, back, height, width))
    ensures j < |cols| && InRect(cell, Rect(row - up, cols[j] - back, height, width))
  {
    var rects := RectRow(row, cols, up, back, height, width);
    var r :| r in rects && InRect(cell, r);
    j :| 0 <= j < |rects| && rects[j] == r;
  }

  lemma {:induction false} FindInGrid(cell: Cell, rows: seq<nat>, cols: seq<nat>, up: int, back: int, height: nat, width: nat)
    returns (i: nat, j: nat)
    requires InSome(cell, RectGrid(rows, cols, up, back, height, width))
    ensures i < |rows| && j < |cols| && InRect(cell, Rect(rows[i] - up, cols[j] - back, height, width))
    decreases |rows|
  {
    hide InSome, RectRow, InRect;
    i, j := 0, 0;
    NothingInside(cell);
    if rows != [] {
      var k := |rows| - 1;
      var upper := RectGrid(rows[..k], cols, up, back, height, width);
      InSomeConcat(cell, upper, RectRow(rows[k], cols, up, back, height, width));
      if InSome(cell, upper) {
        i, j := FindInGrid(cell, rows[..k], cols, up, back, height, width);
      } else {
        i := k;
        j := FindInRow(cell, rows[k], cols, up, back, height, width);
      }
    }
  }

  lemma NothingInside(cell: Cell)
    ensures !InSome(cell, [])
  {}

  ghost predicate Spaced(at: seq<nat>, distance: nat) {
    forall i, j :: 0 <= i < j < |at| ==> at[i] + distance <= at[j]
  }

  lemma {:induction false} TightRow(row: int, cols: seq<nat>, up: int, back: int, height: nat, width: nat)
    requires Spaced(cols, width)
    ensures IsTight(RectRow(row, cols, up, back, height, width))
  {
    hide InSome, IsTight;
    if cols == [] {
      TightNone();
      assert RectRow(row, cols, up, back, height, width) == [];
    } else {
      var k := |cols| - 1;
      var front, last := RectRow(row, cols[..k], up, back, height, width), Rect(row - up, cols[k] - back, height, width);
      TightRow(row, cols[..k], up, back, height, width);
      TightOne(last);
      forall cell | InSome(cell, front)
        ensures !InSome(cell, [last])
      {
        var j := FindInRow(cell, row, cols[..k], up, back, height, width);
        assert cols[k] - cols[j] >= width;
        InOne(cell, last);
      }
      TightConcat(front, [last]);
      assert RectRow(row, cols, up, back, height, width) == front + [last];
    }
  }

  lemma {:induction false} TightGrid(rows: seq<nat>, cols: seq<nat>, up: int, back: int, height: nat, width: nat)
    requires Spaced(rows, height) && Spaced(cols, width)
    ensures IsTight(RectGrid(rows, cols, up, back, height, width))
  {
    hide InSome, IsTight, RectRow;
    if rows == [] {
      TightNone();
    } else {
      var k := |rows| - 1;
      var upper, last := RectGrid(rows[..k], cols, up, back, height, width), RectRow(rows[k], cols, up, back, height, width);
      TightGrid(rows[..k], cols, up, back, height, width);
      TightRow(rows[k], cols, up, back, height, width);
      forall cell | InSome(cell, upper)
        ensures !InSome(cell, last)
      {
        var i, j := FindInGrid(cell, rows[..k], cols, up, back, height, width);
        assert rows[k] - rows[i] >= height;
        if InSome(cell, last) { var j' := FindInRow(cell, rows[k], cols, up, back, height, width); }
      }
      TightConcat(upper, last);
    }
  }

  // ---------------------------------------------------------------------------
  // The alignment blocks

  /** What the coordinates of every version satisfy, but for the first which has none. */
  ghost predicate WellPlaced(size: nat, at: seq<nat>) {
    && size >= 25 && |at| >= 2 && Spaced(at, 12)
    && at[0] == 6 && at[|at| - 1] == size - 7
  }

  lemma IsWellPlaced(version: nat)
    requires IsVersion(version) && version > 1
    ensures WellPlaced(SizeOf(version), Alignment(version))
  {
    hide Alignment;
    AlignmentFacts(version);
    var at := Alignment(version);
    forall i, j | 0 <= i < j < |at|
      ensures at[i] + 12 <= at[j]
    {
      AlignmentSpacing(version, i, j);
    }
  }

  /** The coordinates a pattern is centred on, for a cell of an alignment block: off the
      corners, and with the cell within two of both. */
  ghost predicate Centred(size: nat, at: seq<nat>, cell: Cell, i: nat, j: nat)
    requires i < |at| && j < |at|
  {
    InAlignment(cell, at[i], at[j]) && !FinderOverlap(at[i], at[j], size) && (i > 0 || j > 0)
  }

  lemma MiddleOf(size: nat, at: seq<nat>, k: nat)
    requires WellPlaced(size, at) && 0 < k < |at| - 1
    ensures at[1..|at| - 1][k - 1] == at[k] && 18 <= at[k] <= size - 19
  {
    assert at[k] - at[0] >= 12 && at[|at| - 1] - at[k] >= 12;
  }

  lemma LaterOf(size: nat, at: seq<nat>, k: nat)
    requires WellPlaced(size, at) && 0 < k < |at|
    ensures at[1..][k - 1] == at[k] && 18 <= at[k] <= size - 7
  {
    assert at[k] - at[0] >= 12;
    assert k < |at| - 1 ==> at[|at| - 1] - at[k] >= 12;
  }

  lemma SpacedSlices(size: nat, at: seq<nat>)
    requires WellPlaced(size, at)
    ensures Spaced(at[1..|at| - 1], 5) && Spaced(at[1..], 5) && Spaced([6], 5)
  {
    var middle, later := at[1..|at| - 1], at[1..];
    forall i, j | 0 <= i < j < |middle|
      ensures middle[j] - middle[i] >= 5
    {
      assert at[j + 1] - at[i + 1] >= 12;
    }
    forall i, j | 0 <= i < j < |later|
      ensures later[j] - later[i] >= 5
    {
      assert at[j + 1] - at[i + 1] >= 12;
    }
  }

  lemma InRowBlocks(size: nat, at: seq<nat>, cell: Cell, above: bool) returns (j: nat)
    requires WellPlaced(size, at)
    requires InSome(cell, RectGrid([6], at[1..|at| - 1], if above then 2 else -1, 2, 2, 5))
    ensures 0 < j < |at| - 1 && Centred(size, at, cell, 0, j) && 18 <= at[j] <= size - 19
    ensures if above then 4 <= cell.row <= 5 else 7 <= cell.row <= 8
  {
    var i, k := FindInGrid(cell, [6], at[1..|at| - 1], if above then 2 else -1, 2, 2, 5);
    j := k + 1;
    MiddleOf(size, at, j);
  }

  lemma InColumnBlocks(size: nat, at: seq<nat>, cell: Cell, before: bool) returns (i: nat)
    requires WellPlaced(size, at)
    requires InSome(cell, RectGrid(at[1..|at| - 1], [6], 2, if before then 2 else -1, 5, 2))
    ensures 0 < i < |at| - 1 && Centred(size, at, cell, i, 0) && 18 <= at[i] <= size - 19
    ensures if before then 4 <= cell.col <= 5 else 7 <= cell.col <= 8
  {
    var k, j := FindInGrid(cell, at[1..|at| - 1], [6], 2, if before then 2 else -1, 5, 2);
    i := k + 1;
    MiddleOf(size, at, i);
  }

  lemma InInnerBlocks(size: nat, at: seq<nat>, cell: Cell) returns (i: nat, j: nat)
    requires WellPlaced(size, at)
    requires InSome(cell, RectGrid(at[1..], at[1..], 2, 2, 5, 5))
    ensures 0 < i < |at| && 0 < j < |at| && Centred(size, at, cell, i, j)
    ensures 18 <= at[i] <= size - 7 && 18 <= at[j] <= size - 7
  {
    var k, l := FindInGrid(cell, at[1..], at[1..], 2, 2, 5, 5);
    i, j := k + 1, l + 1;
    LaterOf(size, at, i);
    LaterOf(size, at, j);
  }

  /** Where the cells of the five groups of blocks lie. */
  ghost predicate InGroup(size: nat, cell: Cell, group: nat) {
    match group
    case 0 => 4 <= cell.row <= 5 && 16 <= cell.col <= size - 17
    case 1 => 7 <= cell.row <= 8 && 16 <= cell.col <= size - 17
    case 2 => 4 <= cell.col <= 5 && 16 <= cell.row <= size - 17
    case 3 => 7 <= cell.col <= 8 && 16 <= cell.row <= size - 17
    case _ => 16 <= cell.row <= size - 5 && 16 <= cell.col <= size - 5
  }

  function Group(at: seq<nat>, group: nat): seq<Rect>
    requires |at| >= 2
  {
    match group
    case 0 => RectGrid([6], at[1..|at| - 1], 2, 2, 2, 5)
    case 1 => RectGrid([6], at[1..|at| - 1], -1, 2, 2, 5)
    case 2 => RectGrid(at[1..|at| - 1], [6], 2, 2, 5, 2)
    case 3 => RectGrid(at[1..|at| - 1], [6], 2, -1, 5, 2)
    case _ => RectGrid(at[1..], at[1..], 2, 2, 5, 5)
  }

  lemma GroupFacts(size: nat, at: seq<nat>, cell: Cell, group: nat) returns (i: nat, j: nat)
    requires WellPlaced(size, at) && group < 5 && InSome(cell, Group(at, group))
    ensures InGroup(size, cell, group) && i < |at| && j < |at| && Centred(size, at, cell, i, j)
  {
    hide RectGrid, InSome;
    if group < 2 {
      i := 0;
      j := InRowBlocks(size, at, cell, group == 0);
    } else if group < 4 {
      i := InColumnBlocks(size, at, cell, group == 2);
      j := 0;
    } else {
      i, j := InInnerBlocks(size, at, cell);
    }
  }

  lemma GroupIsTight(size: nat, at: seq<nat>, group: nat)
    requires WellPlaced(size, at) && group < 5
    ensures IsTight(Group(at, group))
  {
    hide RectGrid, IsTight;
    SpacedSlices(size, at);
    var middle, later := at[1..|at| - 1], at[1..];
    if group < 2 {
      TightGrid([6], middle, if group == 0 then 2 else -1, 2, 2, 5);
    } else if group < 4 {
      TightGrid(middle, [6], 2, if group == 2 then 2 else -1, 5, 2);
    } else {
      TightGrid(later, later, 2, 2, 5, 5);
    }
  }

  lemma GroupsApart(size: nat, at: seq<nat>, a: nat, b: nat)
    requires WellPlaced(size, at) && a < b < 5
    ensures Apart(Group(at, a), Group(at, b))
  {
    hide Group, InSome, Spaced;
    forall cell | InSome(cell, Group(at, a))
      ensures !InSome(cell, Group(at, b))
    {
      var i, j := GroupFacts(size, at, cell, a);
      if InSome(cell, Group(at, b)) { var i', j' := GroupFacts(size, at, cell, b); }
    }
  }

  function Groups(at: seq<nat>, n: nat): seq<Rect>
    requires |at| >= 2
  {
    if n == 0 then [] else Groups(at, n - 1) + Group(at, n - 1)
  }

  lemma BlocksAreGroups(at: seq<nat>)
    requires |at| >= 2
    ensures AlignmentBlocks(at) == Groups(at, 5)
  {
    hide RectGrid;
    assert Groups(at, 1) == [] + Group(at, 0) == Group(at, 0);
    assert Groups(at, 2) == Group(at, 0) + Group(at, 1);
    assert Groups(at, 3) == Group(at, 0) + Group(at, 1) + Group(at, 2);
    assert Groups(at, 4) == Group(at, 0) + Group(at, 1) + Group(at, 2) + Group(at, 3);
    assert Groups(at, 5) == Group(at, 0) + Group(at, 1) + Group(at, 2) + Group(at, 3) + Group(at, 4);
  }

  lemma {:induction false} FindGroup(size: nat, at: seq<nat>, cell: Cell, n: nat) returns (group: nat)
    requires |at| >= 2 && InSome(cell, Groups(at, n))
    ensures group < n && InSome(cell, Group(at, group))
  {
    hide Group, InSome;
    NothingInside(cell);
    InSomeConcat(cell, if n > 0 then Groups(at, n - 1) else [], if n > 0 then Group(at, n - 1) else []);
    if n > 0 && InSome(cell, Group(at, n - 1)) {
      group := n - 1;
    } else {
      group := FindGroup(size, at, cell, n - 1);
    }
  }

  lemma {:induction false} GroupsAreTight(size: nat, at: seq<nat>, n: nat)
    requires WellPlaced(size, at) && n <= 5
    ensures IsTight(Groups(at, n))
  {
    hide Group, InSome, Spaced, IsTight;
    if n == 0 {
      TightNone();
    } else {
      GroupsAreTight(size, at, n - 1);
      GroupIsTight(size, at, n - 1);
      var front, last := Groups(at, n - 1), Group(at, n - 1);
      forall cell | InSome(cell, front)
        ensures !InSome(cell, last)
      {
        var group := FindGroup(size, at, cell, n - 1);
        GroupsApart(size, at, group, n - 1);
      }
      TightConcat(front, last);
    }
  }

  // ---------------------------------------------------------------------------
  // The blocks of a version

  lemma CornersAreTight(size: nat)
    requires size >= 21
    ensures IsTight(Corners(size))
  {
    hide IsTight;
    var c := Corners(size);
    assert c == [c[0]] + [c[1]] + [c[2]] + [c[3]] + [c[4]] + [c[5]];
    TightOne(c[0]);
    TightSnoc([c[0]], c[1]);
    TightSnoc([c[0]] + [c[1]], c[2]);
    TightSnoc([c[0]] + [c[1]] + [c[2]], c[3]);
    TightSnoc([c[0]] + [c[1]] + [c[2]] + [c[3]], c[4]);
    TightSnoc([c[0]] + [c[1]] + [c[2]] + [c[3]] + [c[4]], c[5]);
  }

  lemma TightSnoc(rects: seq<Rect>, r: Rect)
    requires IsTight(rects) && forall other :: other in rects ==> NoOverlap(other, r)
    ensures IsTight(rects + [r])
  {
    hide IsTight;
    TightOne(r);
    forall cell | InSome(cell, rects)
      ensures !InSome(cell, [r])
    {
      var other :| other in rects && InRect(cell, other);
      assert NoOverlap(other, r);
      InOne(cell, r);
    }
    TightConcat(rects, [r]);
  }

  ghost predicate NoOverlap(a: Rect, b: Rect) {
    || a.top + a.height <= b.top || b.top + b.height <= a.top
    || a.left + a.width <= b.left || b.left + b.width <= a.left
  }

  lemma VersionIsTight(version: nat, size: nat)
    requires size >= 21
    ensures IsTight(VersionBlocks(version, size))
  {
    hide IsTight;
    if version >= 7 {
      var v := VersionBlocks(version, size);
      assert v == [v[0]] + [v[1]];
      TightOne(v[0]);
      TightSnoc([v[0]], v[1]);
    } else {
      TightNone();
    }
  }

  lemma VersionApart(version: nat, size: nat)
    requires size >= 21 && (version >= 7 ==> size >= 45)
    ensures Apart(Corners(size), VersionBlocks(version, size))
  {
    forall cell | InSome(cell, Corners(size))
      ensures !InSome(cell, VersionBlocks(version, size))
    {
      var a :| a in Corners(size) && InRect(cell, a);
    }
  }

  lemma AlignmentApart(version: nat, size: nat, at: seq<nat>)
    requires WellPlaced(size, at) && (version >= 7 ==> size >= 45)
    ensures Apart(Corners(size) + VersionBlocks(version, size), AlignmentBlocks(at))
  {
    hide InSome, Corners, VersionBlocks, AlignmentBlocks, Groups, Group;
    BlocksAreGroups(at);
    forall cell | InSome(cell, Corners(size) + VersionBlocks(version, size))
      ensures !InSome(cell, AlignmentBlocks(at))
    {
      InSomeConcat(cell, Corners(size), VersionBlocks(version, size));
      if InSome(cell, AlignmentBlocks(at)) {
        var group := FindGroup(size, at, cell, 5);
        var i, j := GroupFacts(size, at, cell, group);
        GroupIsElsewhere(version, size, cell, group);
      }
    }
  }

  lemma GroupIsElsewhere(version: nat, size: nat, cell: Cell, group: nat)
    requires size >= 25 && (version >= 7 ==> size >= 45) && InGroup(size, cell, group)
    ensures !InSome(cell, Corners(size)) && !InSome(cell, VersionBlocks(version, size))
  {
    var c, v := Corners(size), VersionBlocks(version, size);
    assert forall k :: 0 <= k < |c| ==> !InRect(cell, c[k]);
    assert forall k :: 0 <= k < |v| ==> !InRect(cell, v[k]);
  }

  lemma BlocksAreTight(version: nat)
    requires IsVersion(version)
    ensures IsTight(Blocks(version))
  {
    hide IsTight, Corners, VersionBlocks, AlignmentBlocks, Alignment, WellPlaced, Groups;
    var size, at := SizeOf(version), Alignment(version);
    AlignmentFacts(version);
    var aligned := if |at| >= 2 then AlignmentBlocks(at) else [];
    CornersAreTight(size);
    VersionIsTight(version, size);
    VersionApart(version, size);
    TightConcat(Corners(size), VersionBlocks(version, size));
    if |at| >= 2 {
      IsWellPlaced(version);
      BlocksAreGroups(at);
      GroupsAreTight(size, at, 5);
      AlignmentApart(version, size, at);
      TightConcat(Corners(size) + VersionBlocks(version, size), aligned);
    } else {
      assert Blocks(version) == Corners(size) + VersionBlocks(version, size);
    }
  }

  // ---------------------------------------------------------------------------
  // Every block is reserved

  lemma CornersAreReserved(version: nat, cell: Cell)
    requires IsVersion(version) && InSome(cell, Corners(SizeOf(version)))
    ensures Reserved(version, cell) && cell.col != 6
  {
    hide InSomeAlignment, InVersion;
    var size := SizeOf(version);
    var r :| r in Corners(size) && InRect(cell, r);
    if !InSomeFinder(size, cell) && !InTiming(size, cell) && !IsDarkModule(size, cell) {
      InFormatLines(size, cell);
    }
  }

  lemma InFormatLines(size: nat, cell: Cell)
    requires size >= 21
    requires
      || (cell.row == 8 && ((0 <= cell.col <= 8 && cell.col != 6) || size - 8 <= cell.col < size))
      || (cell.col == 8 && ((0 <= cell.row <= 8 && cell.row != 6) || size - 7 <= cell.row < size))
    ensures InFormat(size, cell)
  {
    var first, second :=
      if cell.row == 8 && cell.col <= 5 then cell.col
      else if cell.row == 8 && cell.col <= 8 then cell.col - 1
      else if cell.row == 8 then cell.col - size + 15
      else if cell.row == 7 then 8
      else if cell.row <= 5 then 14 - cell.row
      else if cell.row == size - 7 then 6
      else size - 1 - cell.row,
      if cell.row == 8 then cell.col > 8 else cell.row > 8;
    assert 0 <= first < 15 && cell == FormatCell(size, first, second);
  }

  lemma VersionIsReserved(version: nat, cell: Cell)
    requires IsVersion(version) && InSome(cell, VersionBlocks(version, SizeOf(version)))
    ensures Reserved(version, cell) && cell.col != 6
  {
    hide InSomeAlignment, InFormat;
    var r :| r in VersionBlocks(version, SizeOf(version)) && InRect(cell, r);
  }

  lemma {:induction false} InRowAt(size: nat, cell: Cell, row: int, cols: seq<nat>, j: nat)
    requires j < |cols| && !FinderOverlap(row, cols[j], size) && InAlignment(cell, row, cols[j])
    ensures InAlignmentRow(size, cell, row, cols)
    decreases |cols|
  {
    if j < |cols| - 1 { InRowAt(size, cell, row, cols[..|cols| - 1], j); }
  }

  lemma {:induction false} InAlignmentAt(size: nat, cell: Cell, rows: seq<nat>, cols: seq<nat>, i: nat, j: nat)
    requires i < |rows| && j < |cols| && !FinderOverlap(rows[i], cols[j], size) && InAlignment(cell, rows[i], cols[j])
    ensures InSomeAlignment(size, cell, rows, cols)
    decreases |rows|
  {
    hide InAlignmentRow;
    if i < |rows| - 1 {
      InAlignmentAt(size, cell, rows[..|rows| - 1], cols, i, j);
    } else {
      InRowAt(size, cell, rows[i], cols, j);
    }
  }

  lemma AlignmentIsReserved(version: nat, cell: Cell)
    requires IsVersion(version) && |Alignment(version)| >= 2 && InSome(cell, AlignmentBlocks(Alignment(version)))
    ensures Reserved(version, cell) && cell.col != 6
  {
    hide Alignment, AlignmentBlocks, InSome, InSomeAlignment, InFormat, Groups, Group, Spaced;
    var size, at := SizeOf(version), Alignment(version);
    AlignmentFacts(version);
    IsWellPlaced(version);
    BlocksAreGroups(at);
    var group := FindGroup(size, at, cell, 5);
    var i, j := GroupFacts(size, at, cell, group);
    InAlignmentAt(size, cell, at, at, i, j);
  }

  /** A module outside column 6 is reserved exactly when it is in one of the blocks. */
  lemma ReservedIffBlock(version: nat, cell: Cell)
    requires IsVersion(version)
    ensures InSome(cell, Blocks(version)) <==> Reserved(version, cell) && cell.col != 6
  {
    hide InSome, Corners, VersionBlocks, AlignmentBlocks, Alignment, Reserved;
    var size, at := SizeOf(version), Alignment(version);
    var aligned := if |at| >= 2 then AlignmentBlocks(at) else [];
    InSomeConcat(cell, Corners(size), VersionBlocks(version, size));
    InSomeConcat(cell, Corners(size) + VersionBlocks(version, size), aligned);
    NothingInside(cell);
    if Reserved(version, cell) && cell.col != 6 { ReservedCovered(version, cell); }
    if InSome(cell, Corners(size)) { CornersAreReserved(version, cell); }
    if InSome(cell, VersionBlocks(version, size)) { VersionIsReserved(version, cell); }
    if |at| >= 2 && InSome(cell, aligned) { AlignmentIsReserved(version, cell); }
  }

  // ---------------------------------------------------------------------------
  // The count

  lemma FreeAndBlocks(version: nat)
    requires IsVersion(version)
    ensures |FreeWalk(version)| + Area(Blocks(version)) == SizeOf(version) * (SizeOf(version) - 1)
  {
    hide Reserved, FreeWalk, Walk, Blocks, Cover, SetOf, Area, InSome;
    var size := SizeOf(version);
    WalkVisitsOnce(size);
    FreeWalkCells(version);
    BlocksAreTight(version);
    var all, free, covered := SetOf(Walk(size)), SetOf(FreeWalk(version)), Cover(Blocks(version));
    forall cell
      ensures cell in all <==> cell in free || cell in covered
      ensures !(cell in free && cell in covered)
    {
      ReservedIffBlock(version, cell);
      if cell.col == 6 && OnGrid(size, cell) { ColumnReserved(version, cell); }
      OnlyOnGrid(version, cell);
    }
    DisjointSize(free, covered);
    assert all == free + covered;
  }

  lemma ColumnReserved(version: nat, cell: Cell)
    requires IsVersion(version) && cell.col == 6 && OnGrid(SizeOf(version), cell)
    ensures Reserved(version, cell)
  {
    TimingColumnReserved(version, cell.row);
    hide Reserved;
    assert cell == Cell(cell.row, 6);
  }

  lemma OnlyOnGrid(version: nat, cell: Cell)
    requires IsVersion(version)
    ensures Reserved(version, cell) ==> OnGrid(SizeOf(version), cell)
  {
    hide InSomeAlignment, InFormat;
  }

  /** The free modules of every version are exactly as many as the bits of its codewords and
      its remainder bits: none is missing and none is left over. */
  lemma SymbolHoldsCodewords(version: nat)
    requires IsVersion(version)
    ensures |FreeWalk(version)| == 8 * TotalCodewords(version) + RemainderBits(version)
  {
    hide FreeWalk, Blocks, TotalCodewords, Alignment;
    FreeAndBlocks(version);
    BlocksArea(version);
    RawModulesTable(version);
  }
}
