/** Where the modules of a QR symbol go: the zig-zag walk, the reserved modules and
    how many are left for codewords. */
module QrLayout {
  import opened Common
  import opened QrTables

  datatype Cell = Cell(row: int, col: int)

  // ---------------------------------------------------------------------------
  // The zig-zag walk

  function WalkRow(size: nat, upward: bool, count: nat): int {
    if upward then size - 1 - count else count
  }

  /** The first count rows of the column pair whose right column is col. */
  function PairWalk(size: nat, col: int, upward: bool, count: nat): (cells: seq<Cell>)
    ensures |cells| == 2 * count
  {
    if count == 0 then []
    else
      var row := WalkRow(size, upward, count - 1);
      PairWalk(size, col, upward, count - 1) + [Cell(row, col), Cell(row, col - 1)]
  }

  // Column 6 holds the vertical timing line; the walk steps over it.
  function RightColumn(col: int): int {
    if col == 6 then 5 else col
  }

  function WalkFrom(size: nat, col: int, upward: bool): seq<Cell>
    decreases col
  {
    if col <= 0 then []
    else
      var right := RightColumn(col);
      PairWalk(size, right, upward, size) + WalkFrom(size, right - 2, !upward)
  }

  function Walk(size: nat): seq<Cell> {
    WalkFrom(size, size - 1, true)
  }

  lemma {:induction false} PairWalkCells(size: nat, col: int, upward: bool, count: nat)
    requires count <= size
    ensures Distinct(PairWalk(size, col, upward, count))
    ensures forall cell :: cell in PairWalk(size, col, upward, count) <==>
      (cell.col == col || cell.col == col - 1) && exists k :: 0 <= k < count && cell.row == WalkRow(size, upward, k)
  {
    if count > 0 {
      PairWalkCells(size, col, upward, count - 1);
      var earlier := PairWalk(size, col, upward, count - 1);
      var row := WalkRow(size, upward, count - 1);
      forall k | 0 <= k < count - 1
        ensures WalkRow(size, upward, k) != row
      {}
      hide WalkRow;
      assert Cell(row, col) !in earlier && Cell(row, col - 1) !in earlier;
      forall cell
        ensures cell in PairWalk(size, col, upward, count) <==>
          (cell.col == col || cell.col == col - 1) && exists k :: 0 <= k < count && cell.row == WalkRow(size, upward, k)
      {
        assert cell in PairWalk(size, col, upward, count) <==>
          cell in earlier || cell == Cell(row, col) || cell == Cell(row, col - 1);
      }
    }
  }

  lemma PairWalkWhole(size: nat, col: int, upward: bool)
    ensures Distinct(PairWalk(size, col, upward, size))
    ensures forall cell :: cell in PairWalk(size, col, upward, size) <==>
      (cell.col == col || cell.col == col - 1) && 0 <= cell.row < size
  {
    PairWalkCells(size, col, upward, size);
    forall cell: Cell
      ensures (exists k :: 0 <= k < size && cell.row == WalkRow(size, upward, k)) <==> 0 <= cell.row < size
    {
      if 0 <= cell.row < size {
        var k := if upward then size - 1 - cell.row else cell.row;
        assert WalkRow(size, upward, k) == cell.row;
      }
    }
  }

  // The columns still ahead of the walk: an even column right of the timing line,
  // or an odd one left of it.
  ghost predicate AheadOf(col: int) {
    col == -1 || (col >= 6 && col % 2 == 0) || (0 < col < 6 && col % 2 == 1)
  }

  lemma DistinctConcat<T>(a: seq<T>, b: seq<T>)
    requires Distinct(a) && Distinct(b)
    requires forall x :: x in a ==> x !in b
    ensures Distinct(a + b)
  {
    var s := a + b;
    forall i, j | 0 <= i < j < |s|
      ensures s[i] != s[j]
    {
      if i < |a| <= j {
        assert s[i] in a && s[j] in b;
      }
    }
  }

  lemma {:induction false} WalkFromCells(size: nat, col: int, upward: bool)
    requires AheadOf(col)
    ensures Distinct(WalkFrom(size, col, upward))
    ensures forall cell :: cell in WalkFrom(size, col, upward) <==>
      0 <= cell.row < size && 0 <= cell.col <= col && cell.col != 6
    ensures |WalkFrom(size, col, upward)| == size * (if col >= 6 then col else col + 1)
    decreases col
  {
    if col > 0 {
      var right := RightColumn(col);
      PairWalkWhole(size, right, upward);
      WalkFromCells(size, right - 2, !upward);
      DistinctConcat(PairWalk(size, right, upward, size), WalkFrom(size, right - 2, !upward));
      WalkLengthStep(size, col);
    }
  }

  lemma WalkLengthStep(size: nat, col: int)
    requires AheadOf(col) && col > 0
    ensures var rest := RightColumn(col) - 2;
      size * (if col >= 6 then col else col + 1) == 2 * size + size * (if rest >= 6 then rest else rest + 1)
  {}

  /** For every odd size of at least nine the walk visits each cell outside column 6
      exactly once. */
  lemma WalkVisitsOnce(size: nat)
    requires size % 2 == 1 && size >= 9
    ensures Distinct(Walk(size))
    ensures forall cell :: cell in Walk(size) <==> 0 <= cell.row < size && 0 <= cell.col < size && cell.col != 6
    ensures |Walk(size)| == size * (size - 1)
  {
    WalkFromCells(size, size - 1, true);
  }

  // ---------------------------------------------------------------------------
  // Where the walk is after a number of steps

  lemma {:induction false} PairWalkAt(size: nat, col: int, upward: bool, count: nat, k: nat)
    requires k < 2 * count
    ensures PairWalk(size, col, upward, count)[k] == Cell(WalkRow(size, upward, k / 2), col - k % 2)
  {
    hide WalkRow;
    if k < 2 * (count - 1) { PairWalkAt(size, col, upward, count - 1, k); }
  }

  // The right column of a later pair; the pairs after the timing line have moved one left.
  function PairColumn(col: int, pair: nat): int {
    if col >= 6 && col - 2 * pair <= 6 then col - 2 * pair - 1 else col - 2 * pair
  }

  function PairCount(col: int): int {
    if col >= 6 then col / 2 else (col + 1) / 2
  }

  lemma {:induction false} WalkFromAt(size: nat, col: int, upward: bool, pair: nat, step: nat)
    requires AheadOf(col) && pair < PairCount(col) && step < 2 * size
    ensures StepsBefore(size, pair) + step < |WalkFrom(size, col, upward)|
    ensures WalkFrom(size, col, upward)[StepsBefore(size, pair) + step]
         == Cell(WalkRow(size, if pair % 2 == 0 then upward else !upward, step / 2), PairColumn(col, pair) - step % 2)
    decreases col
  {
    hide WalkRow, PairWalk, WalkFrom, PairColumn, StepsBefore;
    var right := RightColumn(col);
    var first, rest := PairWalk(size, right, upward, size), WalkFrom(size, right - 2, !upward);
    FirstPair(size, col, upward);
    NoSteps(size, pair);
    if pair == 0 {
      PairWalkAt(size, right, upward, size, step);
      FirstColumn(col);
    } else {
      NextColumn(col, pair);
      WalkFromAt(size, right - 2, !upward, pair - 1, step);
      var k := StepsBefore(size, pair - 1) + step;
      assert (first + rest)[2 * size + k] == rest[k];
    }
  }

  lemma FirstPair(size: nat, col: int, upward: bool)
    requires col > 0
    ensures WalkFrom(size, col, upward)
         == PairWalk(size, RightColumn(col), upward, size) + WalkFrom(size, RightColumn(col) - 2, !upward)
  {}

  lemma NoSteps(size: nat, pair: nat)
    ensures StepsBefore(size, pair) == if pair == 0 then 0 else 2 * size + StepsBefore(size, pair - 1)
  {}

  /** The steps before a pair. */
  function StepsBefore(size: nat, pair: nat): nat {
    if pair == 0 then 0 else 2 * size + StepsBefore(size, pair - 1)
  }

  lemma {:induction false} StepsBeforeIs(size: nat, pair: nat)
    ensures StepsBefore(size, pair) == pair * (2 * size)
  {
    if pair > 0 {
      StepsBeforeIs(size, pair - 1);
      assert pair * (2 * size) == (pair - 1) * (2 * size) + 2 * size;
    }
  }

  lemma FirstColumn(col: int)
    ensures AheadOf(col) ==> PairColumn(col, 0) == RightColumn(col)
  {}

  lemma NextColumn(col: int, pair: nat)
    requires AheadOf(col) && col > 0 && pair > 0
    requires pair < PairCount(col)
    ensures PairColumn(RightColumn(col) - 2, pair - 1) == PairColumn(col, pair) && pair - 1 < PairCount(RightColumn(col) - 2)
    ensures (pair - 1) % 2 == 0 <==> pair % 2 != 0
  {}

  /** Where the walk is. Pairs of columns are taken from the right, stepping over column 6,
      the first upwards and then in turns; in a pair each row has its right cell before its
      left one. */
  lemma WalkAt(size: nat, pair: nat, step: nat)
    requires size % 2 == 1 && size >= 9 && 2 * pair < size - 1 && step < 2 * size
    ensures pair * (2 * size) + step < |Walk(size)|
    ensures var right := if 2 * pair < size - 7 then size - 1 - 2 * pair else size - 2 - 2 * pair;
      Walk(size)[pair * (2 * size) + step] == Cell(if pair % 2 == 0 then size - 1 - step / 2 else step / 2, right - step % 2)
  {
    StepsBeforeIs(size, pair);
    WalkFromAt(size, size - 1, true, pair, step);
  }

  // ---------------------------------------------------------------------------
  // Reserved modules

  predicate Within(value: int, low: int, high: int) {
    low <= value <= high
  }

  /** The finder pattern whose top left module is at (row, col), with its quiet ring,
      cut off at the edges of the symbol. */
  predicate InFinder(cell: Cell, row: int, col: int) {
    Within(cell.row, row - 1, row + 7) && Within(cell.col, col - 1, col + 7)
  }

  predicate InSomeFinder(size: nat, cell: Cell) {
    InFinder(cell, 0, 0) || InFinder(cell, 0, size - 7) || InFinder(cell, size - 7, 0)
  }

  predicate FinderOverlap(row: int, col: int, size: nat) {
    || (row <= 8 && col <= 8)
    || (row <= 8 && col >= size - 9)
    || (row >= size - 9 && col <= 8)
  }

  predicate InAlignment(cell: Cell, row: int, col: int) {
    Within(cell.row, row - 2, row + 2) && Within(cell.col, col - 2, col + 2)
  }

  /** One of the first count alignment centres, in the order rows then columns. */
  predicate InAlignmentRow(size: nat, cell: Cell, row: int, cols: seq<nat>) {
    if cols == [] then false
    else
      var col := cols[|cols| - 1];
      || InAlignmentRow(size, cell, row, cols[..|cols| - 1])
      || (!FinderOverlap(row, col, size) && InAlignment(cell, row, col))
  }

  predicate InSomeAlignment(size: nat, cell: Cell, rows: seq<nat>, cols: seq<nat>) {
    if rows == [] then false
    else
      || InSomeAlignment(size, cell, rows[..|rows| - 1], cols)
      || InAlignmentRow(size, cell, rows[|rows| - 1], cols)
  }

  predicate InTiming(size: nat, cell: Cell) {
    (cell.row == 6 && Within(cell.col, 8, size - 9)) || (cell.col == 6 && Within(cell.row, 8, size - 9))
  }

  predicate IsDarkModule(size: nat, cell: Cell) {
    cell == Cell(size - 8, 8)
  }

  /** The two places of format bit `index`. */
  function FormatCell(size: nat, index: nat, second: bool): Cell {
    if index < 6 then (if second then Cell(size - 1 - index, 8) else Cell(8, index))
    else if index == 6 then (if second then Cell(size - 7, 8) else Cell(8, 7))
    else if index == 7 then (if second then Cell(8, size - 8) else Cell(8, 8))
    else if index == 8 then (if second then Cell(8, size - 7) else Cell(7, 8))
    else (if second then Cell(8, size - 15 + index) else Cell(14 - index, 8))
  }

  predicate InFormat(size: nat, cell: Cell) {
    exists index, second :: 0 <= index < 15 && cell == FormatCell(size, index, second)
  }

  predicate InVersion(version: nat, size: nat, cell: Cell) {
    version >= 7
    && ((Within(cell.row, 0, 5) && Within(cell.col, size - 11, size - 9))
        || (Within(cell.col, 0, 5) && Within(cell.row, size - 11, size - 9)))
  }

  predicate OnGrid(size: nat, cell: Cell) {
    0 <= cell.row < size && 0 <= cell.col < size
  }

  /** The modules that carry no codeword bit. */
  predicate Reserved(version: nat, cell: Cell)
    requires IsVersion(version)
  {
    var size := SizeOf(version);
    OnGrid(size, cell) &&
    (|| InSomeFinder(size, cell)
     || InSomeAlignment(size, cell, Alignment(version), Alignment(version))
     || InTiming(size, cell)
     || IsDarkModule(size, cell)
     || InFormat(size, cell)
     || InVersion(version, size, cell))
  }

  /** The cells of a list that are not reserved, in order. */
  function Free(version: nat, cells: seq<Cell>): seq<Cell>
    requires IsVersion(version)
  {
    if cells == [] then []
    else
      var last := cells[|cells| - 1];
      Free(version, cells[..|cells| - 1]) + (if Reserved(version, last) then [] else [last])
  }

  /** The modules that receive codeword bits, in the order of the bits. */
  function FreeWalk(version: nat): seq<Cell>
    requires IsVersion(version)
  {
    Free(version, Walk(SizeOf(version)))
  }

  lemma {:induction false} FreeCells(version: nat, cells: seq<Cell>)
    requires IsVersion(version)
    ensures forall cell :: cell in Free(version, cells) <==> cell in cells && !Reserved(version, cell)
    ensures Distinct(cells) ==> Distinct(Free(version, cells))
  {
    hide Reserved;
    if cells != [] {
      var front, last := cells[..|cells| - 1], cells[|cells| - 1];
      FreeCells(version, front);
      assert cells == front + [last];
      if Distinct(cells) {
        assert last !in front;
        DistinctConcat(Free(version, front), if Reserved(version, last) then [] else [last]);
      }
    }
  }

  /** Column 6 holds no codeword bits: it is reserved from top to bottom, which is
      why the walk may step over it. */
  lemma TimingColumnReserved(version: nat, row: int)
    requires IsVersion(version) && 0 <= row < SizeOf(version)
    ensures Reserved(version, Cell(row, 6))
  {
    hide InSomeAlignment, InFormat;
  }

  /** The bits go to exactly the modules that are not reserved, each once. */
  lemma FreeWalkCells(version: nat)
    requires IsVersion(version)
    ensures Distinct(FreeWalk(version))
    ensures forall cell :: cell in FreeWalk(version) <==> OnGrid(SizeOf(version), cell) && !Reserved(version, cell)
  {
    hide Reserved, Walk;
    var size := SizeOf(version);
    WalkVisitsOnce(size);
    FreeCells(version, Walk(size));
    forall row | 0 <= row < size
      ensures Reserved(version, Cell(row, 6))
    {
      TimingColumnReserved(version, row);
    }
    forall cell
      ensures cell in FreeWalk(version) <==> OnGrid(size, cell) && !Reserved(version, cell)
    {
      if cell.col == 6 { assert cell == Cell(cell.row, 6); }
    }
  }
}
