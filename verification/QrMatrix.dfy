/** Building a QR symbol: function patterns, codeword bits along the walk, the best
    of eight masks, and the choice of version. */
module QrMatrix {
  import opened Common
  import opened BitStream
  import opened QrTables
  import opened QrLayout
  import opened QrPlacement
  import opened QrMasks

  // ---------------------------------------------------------------------------
  // Function patterns

  /** What is painted under the later patterns. */
  function AlignedModule(version: nat, cell: Cell): Bit
    requires IsVersion(version)
  {
    var size := SizeOf(version);
    AlignmentLayer(size, cell, Alignment(version), Alignment(version), FinderLayer(size, cell))
  }

  /** The module the function patterns leave in a cell; the later pattern wins, and
      format and codeword modules are still light. */
  function FunctionModule(version: nat, cell: Cell): Bit
    requires IsVersion(version)
  {
    var size := SizeOf(version);
    if InVersion(version, size, cell) then VersionDark(VersionBits(version), size, cell)
    else if IsDarkModule(size, cell) then 1
    else if InTiming(size, cell) then TimingDark(cell)
    else AlignedModule(version, cell)
  }

  method PlaceFinders(grid: Modules, reserved: Marks)
    requires Sized(grid, reserved, grid.Length0) && grid.Length0 >= 21
    requires forall r, c :: 0 <= r < grid.Length0 && 0 <= c < grid.Length0 ==> grid[r, c] == 0 && !reserved[r, c]
    modifies grid, reserved
    ensures forall r, c :: 0 <= r < grid.Length0 && 0 <= c < grid.Length0 ==>
      grid[r, c] == FinderLayer(grid.Length0, Cell(r, c)) && reserved[r, c] == InSomeFinder(grid.Length0, Cell(r, c))
  {
    hide FinderDark;
    var size := grid.Length0;
    PlaceFinder(grid, reserved, 0, 0);
    PlaceFinder(grid, reserved, 0, size - 7);
    PlaceFinder(grid, reserved, size - 7, 0);
  }

  method PlaceAlignmentRow(grid: Modules, reserved: Marks, row: int, cols: seq<nat>)
    requires Sized(grid, reserved, grid.Length0) && 6 <= row <= grid.Length0 - 7
    requires forall j :: 0 <= j < |cols| ==> 6 <= cols[j] <= grid.Length0 - 7
    modifies grid, reserved
    ensures forall r, c :: 0 <= r < grid.Length0 && 0 <= c < grid.Length0 ==>
      grid[r, c] == AlignmentRowLayer(grid.Length0, Cell(r, c), row, cols, old(grid[r, c]))
    ensures forall r, c :: 0 <= r < grid.Length0 && 0 <= c < grid.Length0 ==>
      reserved[r, c] == (InAlignmentRow(grid.Length0, Cell(r, c), row, cols) || old(reserved[r, c]))
  {
    hide AlignmentDark;
    var size := grid.Length0;
    for j := 0 to |cols|
      invariant forall r, c :: 0 <= r < size && 0 <= c < size ==>
        grid[r, c] == AlignmentRowLayer(size, Cell(r, c), row, cols[..j], old(grid[r, c]))
      invariant forall r, c :: 0 <= r < size && 0 <= c < size ==>
        reserved[r, c] == (InAlignmentRow(size, Cell(r, c), row, cols[..j]) || old(reserved[r, c]))
    {
      assert cols[..j + 1][..j] == cols[..j];
      var col := cols[j];
      if FinderOverlap(row, col, size) { continue; }
      PlaceAlignment(grid, reserved, row, col);
    }
    assert cols[..|cols|] == cols;
  }

  method PlaceAlignments(grid: Modules, reserved: Marks, at: seq<nat>)
    requires Sized(grid, reserved, grid.Length0)
    requires forall j :: 0 <= j < |at| ==> 6 <= at[j] <= grid.Length0 - 7
    modifies grid, reserved
    ensures forall r, c :: 0 <= r < grid.Length0 && 0 <= c < grid.Length0 ==>
      grid[r, c] == AlignmentLayer(grid.Length0, Cell(r, c), at, at, old(grid[r, c]))
    ensures forall r, c :: 0 <= r < grid.Length0 && 0 <= c < grid.Length0 ==>
      reserved[r, c] == (InSomeAlignment(grid.Length0, Cell(r, c), at, at) || old(reserved[r, c]))
  {
    hide AlignmentRowLayer, InAlignmentRow;
    var size := grid.Length0;
    for i := 0 to |at|
      invariant forall r, c :: 0 <= r < size && 0 <= c < size ==>
        grid[r, c] == AlignmentLayer(size, Cell(r, c), at[..i], at, old(grid[r, c]))
      invariant forall r, c :: 0 <= r < size && 0 <= c < size ==>
        reserved[r, c] == (InSomeAlignment(size, Cell(r, c), at[..i], at) || old(reserved[r, c]))
    {
      assert at[..i + 1][..i] == at[..i];
      PlaceAlignmentRow(grid, reserved, at[i], at);
    }
    assert at[..|at|] == at;
  }

  method PlaceTiming(grid: Modules, reserved: Marks)
    requires Sized(grid, reserved, grid.Length0) && grid.Length0 >= 21
    modifies grid, reserved
    ensures forall r, c :: 0 <= r < grid.Length0 && 0 <= c < grid.Length0 ==>
      grid[r, c] == if InTiming(grid.Length0, Cell(r, c)) then TimingDark(Cell(r, c)) else old(grid[r, c])
    ensures forall r, c :: 0 <= r < grid.Length0 && 0 <= c < grid.Length0 ==>
      reserved[r, c] == (InTiming(grid.Length0, Cell(r, c)) || old(reserved[r, c]))
  {
    var size := grid.Length0;
    for index := 8 to size - 8
      invariant forall r, c :: 0 <= r < size && 0 <= c < size ==>
        grid[r, c] == if (r == 6 && 8 <= c < index) || (c == 6 && 8 <= r < index) then TimingDark(Cell(r, c)) else old(grid[r, c])
      invariant forall r, c :: 0 <= r < size && 0 <= c < size ==>
        reserved[r, c] == ((r == 6 && 8 <= c < index) || (c == 6 && 8 <= r < index) || old(reserved[r, c]))
    {
      SetModule(grid, reserved, 6, index, if index % 2 == 0 then 1 else 0);
      SetModule(grid, reserved, index, 6, if index % 2 == 0 then 1 else 0);
    }
  }

  /** All function patterns; afterwards exactly the reserved modules are marked. */
  method PlaceFunctionPatterns(version: nat, grid: Modules, reserved: Marks)
    requires IsVersion(version) && Sized(grid, reserved, SizeOf(version))
    requires forall r, c :: 0 <= r < SizeOf(version) && 0 <= c < SizeOf(version) ==> grid[r, c] == 0 && !reserved[r, c]
    modifies grid, reserved
    ensures forall r, c :: 0 <= r < SizeOf(version) && 0 <= c < SizeOf(version) ==>
      grid[r, c] == FunctionModule(version, Cell(r, c)) && reserved[r, c] == Reserved(version, Cell(r, c))
  {
    hide FinderLayer, AlignmentLayer, InSomeFinder, InSomeAlignment, InTiming, InFormat, TimingDark,
         VersionDark, VersionBits, BitOfVersion, BitOfFormat, FormatDark, Alignment, InVersion;
    var size := SizeOf(version);
    AlignmentInside(version);
    PlaceFinders(grid, reserved);
    PlaceAlignments(grid, reserved, Alignment(version));
    PlaceTiming(grid, reserved);
    SetModule(grid, reserved, size - 8, 8, 1);
    PlaceFormat(grid, reserved, 0, false);
    if version >= 7 {
      PlaceVersion(grid, reserved, VersionBits(version));
    }
    VersionCells(version, size);
  }

  lemma AlignmentInside(version: nat)
    requires IsVersion(version)
    ensures forall j :: 0 <= j < |Alignment(version)| ==> 6 <= Alignment(version)[j] <= SizeOf(version) - 7
  {
    AlignmentFacts(version);
  }

  lemma VersionCells(version: nat, size: nat)
    ensures forall r, c :: InVersion(version, size, Cell(r, c)) <==> version >= 7 && InVersion(7, size, Cell(r, c))
  {}

  // ---------------------------------------------------------------------------
  // Codeword bits along the walk

  /** Bits past the end are light. */
  function BitAt(bits: seq<Bit>, k: nat): Bit {
    if k < |bits| then bits[k] else 0
  }

  ghost predicate Carries(grid: Modules, cells: seq<Cell>, bits: seq<Bit>)
    requires forall k :: 0 <= k < |cells| ==> 0 <= cells[k].row < grid.Length0 && 0 <= cells[k].col < grid.Length1
    reads grid
  {
    forall k :: 0 <= k < |cells| ==> grid[cells[k].row, cells[k].col] == BitAt(bits, k)
  }

  ghost predicate Inside(cells: seq<Cell>, size: nat) {
    forall k :: 0 <= k < |cells| ==> OnGrid(size, cells[k])
  }

  lemma {:induction false} FreeInside(version: nat, cells: seq<Cell>, size: nat)
    requires IsVersion(version) && Inside(cells, size)
    ensures Inside(Free(version, cells), size)
  {
    hide Reserved;
    if cells != [] {
      FreeInside(version, cells[..|cells| - 1], size);
    }
  }

  lemma FreeSnoc(version: nat, cells: seq<Cell>, cell: Cell)
    requires IsVersion(version)
    ensures Free(version, cells + [cell]) == Free(version, cells) + (if Reserved(version, cell) then [] else [cell])
  {
    hide Reserved;
    assert (cells + [cell])[..|cells|] == cells;
  }

  ghost predicate Marked(version: nat, reserved: Marks)
    requires IsVersion(version) && reserved.Length0 == reserved.Length1 == SizeOf(version)
    reads reserved
  {
    forall r, c :: 0 <= r < SizeOf(version) && 0 <= c < SizeOf(version) ==> reserved[r, c] == Reserved(version, Cell(r, c))
  }

  ghost predicate IsGrid(lines: seq<seq<Bit>>, size: nat) {
    |lines| == size && forall r :: 0 <= r < size ==> |lines[r]| == size
  }

  // The walk so far has taken the first bits and left the reserved modules as in base.
  ghost predicate Filled(version: nat, grid: Modules, base: seq<seq<Bit>>, bits: seq<Bit>, bit: nat, done: seq<Cell>)
    requires IsVersion(version) && grid.Length0 == grid.Length1 == SizeOf(version) && IsGrid(base, SizeOf(version))
    reads grid
  {
    && Inside(done, SizeOf(version))
    && Inside(Free(version, done), SizeOf(version))
    && bit == |Free(version, done)|
    && Carries(grid, Free(version, done), bits)
    && (forall r, c :: 0 <= r < SizeOf(version) && 0 <= c < SizeOf(version) && Reserved(version, Cell(r, c)) ==>
         grid[r, c] == base[r][c])
  }

  // One module of the walk: skipped if reserved, otherwise it takes the next bit.
  method FillModule(version: nat, grid: Modules, reserved: Marks, bits: seq<Bit>, bit: nat, cell: Cell,
                    ghost base: seq<seq<Bit>>, ghost done: seq<Cell>)
    returns (next: nat)
    requires IsVersion(version) && Sized(grid, reserved, SizeOf(version)) && OnGrid(SizeOf(version), cell)
    requires Marked(version, reserved) && cell !in done && IsGrid(base, SizeOf(version))
    requires Filled(version, grid, base, bits, bit, done)
    modifies grid
    ensures Filled(version, grid, base, bits, next, done + [cell])
  {
    hide Reserved, Free, BitAt;
    FreeSnoc(version, done, cell);
    FreeAvoids(version, done, cell);
    next := bit;
    if reserved[cell.row, cell.col] {
      assert Free(version, done + [cell]) == Free(version, done);
    } else {
      grid[cell.row, cell.col] := BitAt(bits, bit);
      next := bit + 1;
    }
  }

  lemma FreeAvoids(version: nat, done: seq<Cell>, cell: Cell)
    requires IsVersion(version) && cell !in done
    ensures forall k :: 0 <= k < |Free(version, done)| ==> Free(version, done)[k] != cell
  {
    hide Reserved, Free;
    FreeCells(version, done);
    forall k | 0 <= k < |Free(version, done)|
      ensures Free(version, done)[k] != cell
    {
      assert Free(version, done)[k] in Free(version, done);
    }
  }

  // One column pair, row by row, right module before left.
  method FillPair(version: nat, grid: Modules, reserved: Marks, bits: seq<Bit>, start: nat, col: int, upward: bool,
                  ghost base: seq<seq<Bit>>, ghost before: seq<Cell>, ghost rest: seq<Cell>)
    returns (bit: nat)
    requires IsVersion(version) && Sized(grid, reserved, SizeOf(version))
    requires Marked(version, reserved) && IsGrid(base, SizeOf(version))
    requires Distinct(before + PairWalk(SizeOf(version), col, upward, SizeOf(version)) + rest)
    requires Inside(before + PairWalk(SizeOf(version), col, upward, SizeOf(version)) + rest, SizeOf(version))
    requires Filled(version, grid, base, bits, start, before)
    modifies grid
    ensures Filled(version, grid, base, bits, bit, before + PairWalk(SizeOf(version), col, upward, SizeOf(version)))
  {
    hide Reserved, Free, Filled, WalkRow, Marked, PairWalk, IsGrid;
    var size := SizeOf(version);
    ghost var all := before + PairWalk(size, col, upward, size) + rest;
    PairWalkStart(size, col, upward);
    ghost var done := before;
    assert before + PairWalk(size, col, upward, 0) == before;
    bit := start;
    for count := 0 to size
      invariant done == before + PairWalk(size, col, upward, count)
      invariant Filled(version, grid, base, bits, bit, done)
    {
      var row := WalkRow(size, upward, count);
      var right, left := Cell(row, col), Cell(row, col - 1);
      ghost var tail := PairWalkPrefix(size, col, upward, count);
      assert all == done + [right] + ([left] + tail + rest);
      assert all == (done + [right]) + [left] + (tail + rest);
      NotYetVisited(all, done, right, [left] + tail + rest);
      NotYetVisited(all, done + [right], left, tail + rest);
      bit := FillModule(version, grid, reserved, bits, bit, right, base, done);
      bit := FillModule(version, grid, reserved, bits, bit, left, base, done + [right]);
      assert done + [right] + [left] == before + PairWalk(size, col, upward, count + 1);
      done := done + [right] + [left];
    }
  }

  function Rows(grid: Modules): (lines: seq<seq<Bit>>)
    requires grid.Length0 == grid.Length1
    reads grid
    ensures |lines| == grid.Length0 && forall r :: 0 <= r < |lines| ==> |lines[r]| == grid.Length0
    ensures forall r, c :: 0 <= r < |lines| && 0 <= c < |lines| ==> lines[r][c] == grid[r, c]
  {
    seq(grid.Length0, r requires 0 <= r < grid.Length0 reads grid =>
      seq(grid.Length1, c requires 0 <= c < grid.Length1 reads grid => grid[r, c]))
  }

  // The rest of the walk starts with a column pair.
  lemma NextPair(walk: seq<Cell>, done: seq<Cell>, size: nat, col: int, upward: bool)
    requires walk == done + WalkFrom(size, col, upward) && AheadOf(col) && col > 0
    ensures var right := RightColumn(col); var pair, rest := PairWalk(size, right, upward, size), WalkFrom(size, right - 2, !upward);
      walk == done + pair + rest && AheadOf(right - 2) && right == if col == 6 then col - 1 else col
  {
    FirstPair(size, col, upward);
    hide WalkFrom, PairWalk;
  }

  /** The zig-zag loop: the k-th free module of the walk gets bit k, and no reserved
      module changes. */
  method FillCodewords(version: nat, grid: Modules, reserved: Marks, bits: seq<Bit>)
    requires IsVersion(version) && Sized(grid, reserved, SizeOf(version))
    requires Marked(version, reserved)
    modifies grid
    ensures Filled(version, grid, old(Rows(grid)), bits, |FreeWalk(version)|, Walk(SizeOf(version)))
  {
    hide Reserved, WalkFrom, Free, Filled, Inside, Marked, Distinct, PairWalk, IsGrid, AheadOf, Rows;
    var size := SizeOf(version);
    ghost var base := Rows(grid);
    WalkVisitsOnce(size);
    ghost var walk := Walk(size);
    WalkInside(size);
    ghost var done: seq<Cell> := [];
    var bit := 0;
    var upward := true;
    var col: int := size - 1;
    RowsAreGrid(grid);
    FillStart(version, grid, bits);
    WalkStarts(size);
    assert done + WalkFrom(size, col, upward) == walk;
    while col > 0
      invariant AheadOf(col) && col < size
      invariant walk == done + WalkFrom(size, col, upward)
      invariant Filled(version, grid, base, bits, bit, done)
      decreases col
    {
      NextPair(walk, done, size, col, upward);
      if col == 6 { col := col - 1; }
      ghost var pair, rest := PairWalk(size, col, upward, size), WalkFrom(size, col - 2, !upward);
      bit := FillPair(version, grid, reserved, bits, bit, col, upward, base, done, rest);
      done := done + pair;
      upward := !upward;
      col := col - 2;
    }
    WalkEnds(size, col, upward);
    assert done == walk;
    FilledCount(version, grid, base, bits, bit, walk);
  }

  lemma WalkStarts(size: nat)
    requires size >= 9 && size % 2 == 1
    ensures AheadOf(size - 1) && WalkFrom(size, size - 1, true) == Walk(size)
  {}

  lemma RowsAreGrid(grid: Modules)
    requires grid.Length0 == grid.Length1
    ensures IsGrid(Rows(grid), grid.Length0)
  {}

  lemma FilledCount(version: nat, grid: Modules, base: seq<seq<Bit>>, bits: seq<Bit>, bit: nat, done: seq<Cell>)
    requires IsVersion(version) && grid.Length0 == grid.Length1 == SizeOf(version) && IsGrid(base, SizeOf(version))
    requires Filled(version, grid, base, bits, bit, done)
    ensures bit == |Free(version, done)|
  {}

  lemma WalkInside(size: nat)
    requires size % 2 == 1 && size >= 9
    ensures Inside(Walk(size), size)
  {
    hide Walk;
    WalkVisitsOnce(size);
  }

  lemma FillStart(version: nat, grid: Modules, bits: seq<Bit>)
    requires IsVersion(version)
    requires grid.Length0 == grid.Length1 == SizeOf(version)
    ensures IsGrid(Rows(grid), SizeOf(version)) && Filled(version, grid, Rows(grid), bits, 0, [])
  {}

  lemma WalkEnds(size: nat, col: int, upward: bool)
    requires col <= 0
    ensures WalkFrom(size, col, upward) == []
  {}

  lemma PairWalkStart(size: nat, col: int, upward: bool)
    ensures PairWalk(size, col, upward, 0) == []
  {}

  lemma {:induction false} PairWalkExtends(size: nat, col: int, upward: bool, count: nat, more: nat)
    ensures PairWalk(size, col, upward, count) <= PairWalk(size, col, upward, count + more)
    decreases more
  {
    if more > 0 { PairWalkExtends(size, col, upward, count, more - 1); }
  }

  // The walk goes on with the next two cells.
  lemma PairWalkPrefix(size: nat, col: int, upward: bool, count: nat) returns (tail: seq<Cell>)
    requires count < size
    ensures var row := WalkRow(size, upward, count);
      && PairWalk(size, col, upward, size)
         == PairWalk(size, col, upward, count) + [Cell(row, col)] + [Cell(row, col - 1)] + tail
      && PairWalk(size, col, upward, count + 1)
         == PairWalk(size, col, upward, count) + [Cell(row, col)] + [Cell(row, col - 1)]
      && OnGrid(size, Cell(row, 0))
  {
    PairWalkExtends(size, col, upward, count + 1, size - count - 1);
    var all := PairWalk(size, col, upward, size);
    var upTo := PairWalk(size, col, upward, count + 1);
    tail := all[|upTo|..];
    assert all == upTo + tail;
  }

  lemma NotYetVisited(walk: seq<Cell>, done: seq<Cell>, cell: Cell, tail: seq<Cell>)
    requires Distinct(walk) && walk == done + [cell] + tail
    ensures cell in walk && cell !in done
  {
    assert walk[|done|] == cell;
    forall k | 0 <= k < |done|
      ensures done[k] != cell
    {
      assert walk[k] == done[k];
    }
  }

  // ---------------------------------------------------------------------------
  // Masking

  function Masked(mask: nat, row: nat, col: nat, bit: Bit): Bit {
    if Inverts(mask, row, col) then 1 - bit else bit
  }

  /** What every cell of the symbol shows for the given codeword bits and mask. */
  ghost predicate IsSymbol(lines: seq<seq<Bit>>, version: nat, ecl: nat, mask: nat, bits: seq<Bit>)
    requires IsVersion(version) && ecl < 2 && mask < 8
  {
    hide Reserved, InFormat, FormatDark, FormatBits, FunctionModule, Masked, BitAt, FreeWalk;
    var size := SizeOf(version);
    && IsGrid(lines, size)
    && Inside(FreeWalk(version), size)
    && (forall r, c :: 0 <= r < size && 0 <= c < size && Reserved(version, Cell(r, c)) ==>
         lines[r][c] == if InFormat(size, Cell(r, c)) then FormatDark(FormatBits(ecl, mask), size, Cell(r, c))
                        else FunctionModule(version, Cell(r, c)))
    && (forall k :: 0 <= k < |FreeWalk(version)| ==>
         var cell := FreeWalk(version)[k];
         lines[cell.row][cell.col] == Masked(mask, cell.row, cell.col, BitAt(bits, k)))
  }

  lemma FormatIsReserved(version: nat, cell: Cell)
    requires IsVersion(version) && InFormat(SizeOf(version), cell)
    ensures Reserved(version, cell)
  {
    hide InSomeAlignment;
    var index, second :| 0 <= index < 15 && cell == FormatCell(SizeOf(version), index, second);
    FormatIndexOfCell(SizeOf(version), index, second);
  }

  /** The symbol is determined by the version, level, mask and bits. */
  lemma SymbolUnique(a: seq<seq<Bit>>, b: seq<seq<Bit>>, version: nat, ecl: nat, mask: nat, bits: seq<Bit>)
    requires IsVersion(version) && ecl < 2 && mask < 8
    requires IsSymbol(a, version, ecl, mask, bits) && IsSymbol(b, version, ecl, mask, bits)
    ensures a == b
  {
    hide Reserved, InFormat, FormatDark, FormatBits, FunctionModule, Masked, BitAt, FreeWalk;
    var size := SizeOf(version);
    FreeWalkCells(version);
    forall r, c | 0 <= r < size && 0 <= c < size
      ensures a[r][c] == b[r][c]
    {
      if !Reserved(version, Cell(r, c)) {
        assert Cell(r, c) in FreeWalk(version);
        var k :| 0 <= k < |FreeWalk(version)| && FreeWalk(version)[k] == Cell(r, c);
      }
    }
    forall r | 0 <= r < size
      ensures a[r] == b[r]
    {}
  }

  // A copy of the grid with the mask on the modules that are not reserved.
  method MaskedCopy(version: nat, grid: Modules, reserved: Marks, mask: nat) returns (candidate: Modules)
    requires IsVersion(version) && Sized(grid, reserved, SizeOf(version)) && Marked(version, reserved) && mask < 8
    ensures fresh(candidate) && candidate.Length0 == candidate.Length1 == SizeOf(version)
    ensures forall r, c :: 0 <= r < SizeOf(version) && 0 <= c < SizeOf(version) ==>
      candidate[r, c] == if Reserved(version, Cell(r, c)) then grid[r, c] else Masked(mask, r, c, grid[r, c])
  {
    hide Reserved, MaskBit, Inverts;
    var size := SizeOf(version);
    candidate := new Bit[size, size]((r, c) requires 0 <= r < size && 0 <= c < size reads grid => grid[r, c]);
    for row := 0 to size
      invariant forall r, c :: 0 <= r < size && 0 <= c < size ==>
        candidate[r, c] == if r >= row || Reserved(version, Cell(r, c)) then grid[r, c] else Masked(mask, r, c, grid[r, c])
    {
      for col := 0 to size
        invariant forall r, c :: 0 <= r < size && 0 <= c < size ==>
          candidate[r, c] == if r > row || (r == row && c >= col) || Reserved(version, Cell(r, c)) then grid[r, c]
                             else Masked(mask, r, c, grid[r, c])
      {
        MaskIsTile(mask, row, col);
        if !reserved[row, col] && MaskBit(mask, row, col) {
          candidate[row, col] := 1 - candidate[row, col];
        }
      }
    }
  }

  // The grid before masking: function patterns and unmasked bits.
  ghost predicate IsUnmasked(version: nat, grid: Modules, bits: seq<Bit>)
    requires IsVersion(version) && grid.Length0 == grid.Length1 == SizeOf(version)
    reads grid
  {
    && Inside(FreeWalk(version), SizeOf(version))
    && Carries(grid, FreeWalk(version), bits)
    && (forall r, c :: 0 <= r < SizeOf(version) && 0 <= c < SizeOf(version) && Reserved(version, Cell(r, c)) ==>
         grid[r, c] == FunctionModule(version, Cell(r, c)))
  }

  method Candidate(version: nat, ecl: nat, mask: nat, grid: Modules, reserved: Marks, ghost bits: seq<Bit>)
    returns (lines: seq<seq<Bit>>)
    requires IsVersion(version) && ecl < 2 && mask < 8 && Sized(grid, reserved, SizeOf(version))
    requires Marked(version, reserved) && IsUnmasked(version, grid, bits)
    modifies reserved
    ensures Marked(version, reserved)
    ensures IsSymbol(lines, version, ecl, mask, bits)
  {
    hide Reserved, InFormat, FormatDark, FormatBits, FunctionModule, Masked, BitAt, FreeWalk;
    var size := SizeOf(version);
    FreeWalkCells(version);
    var candidate := MaskedCopy(version, grid, reserved, mask);
    PlaceFormat(candidate, reserved, FormatBits(ecl, mask), true);
    lines := Rows(candidate);
    forall r, c | 0 <= r < size && 0 <= c < size && InFormat(size, Cell(r, c))
      ensures Reserved(version, Cell(r, c))
    {
      FormatIsReserved(version, Cell(r, c));
    }
    forall k | 0 <= k < |FreeWalk(version)|
      ensures !Reserved(version, FreeWalk(version)[k])
    {
      assert FreeWalk(version)[k] in FreeWalk(version);
    }
  }
}
