/** Writing the function patterns, the codeword bits, the mask and the format bits
    into the module grid. */
module QrPlacement {
  import opened BitStream
  import opened QrTables
  import opened QrLayout

  type Modules = array2<Bit>
  type Marks = array2<bool>

  ghost predicate Sized(grid: Modules, reserved: Marks, size: nat) {
    grid.Length0 == grid.Length1 == reserved.Length0 == reserved.Length1 == size
  }

  method SetModule(grid: Modules, reserved: Marks, row: nat, col: nat, dark: Bit)
    requires Sized(grid, reserved, grid.Length0) && row < grid.Length0 && col < grid.Length0
    modifies grid, reserved
    ensures forall r, c :: 0 <= r < grid.Length0 && 0 <= c < grid.Length0 ==>
      grid[r, c] == if r == row && c == col then dark else old(grid[r, c])
    ensures forall r, c :: 0 <= r < grid.Length0 && 0 <= c < grid.Length0 ==>
      reserved[r, c] == ((r == row && c == col) || old(reserved[r, c]))
  {
    grid[row, col] := dark;
    reserved[row, col] := true;
  }

  // ---------------------------------------------------------------------------
  // Finder patterns

  /** Light ring, dark ring, light ring, dark core. */
  function FinderDark(dy: int, dx: int): Bit {
    if dx == -1 || dx == 7 || dy == -1 || dy == 7 then 0
    else if dx == 0 || dx == 6 || dy == 0 || dy == 6 then 1
    else if 2 <= dx <= 4 && 2 <= dy <= 4 then 1
    else 0
  }

  method PlaceFinder(grid: Modules, reserved: Marks, row: int, col: int)
    requires Sized(grid, reserved, grid.Length0)
    modifies grid, reserved
    ensures forall r, c :: 0 <= r < grid.Length0 && 0 <= c < grid.Length0 ==>
      grid[r, c] == if InFinder(Cell(r, c), row, col) then FinderDark(r - row, c - col) else old(grid[r, c])
    ensures forall r, c :: 0 <= r < grid.Length0 && 0 <= c < grid.Length0 ==>
      reserved[r, c] == (InFinder(Cell(r, c), row, col) || old(reserved[r, c]))
  {
    hide FinderDark;
    var size := grid.Length0;
    for dy := -1 to 8
      invariant forall r, c :: 0 <= r < size && 0 <= c < size ==>
        grid[r, c] == if InFinder(Cell(r, c), row, col) && r - row < dy then FinderDark(r - row, c - col) else old(grid[r, c])
      invariant forall r, c :: 0 <= r < size && 0 <= c < size ==>
        reserved[r, c] == ((InFinder(Cell(r, c), row, col) && r - row < dy) || old(reserved[r, c]))
    {
      for dx := -1 to 8
        invariant forall r, c :: 0 <= r < size && 0 <= c < size ==>
          grid[r, c] == if InFinder(Cell(r, c), row, col) && (r - row < dy || (r - row == dy && c - col < dx))
            then FinderDark(r - row, c - col) else old(grid[r, c])
        invariant forall r, c :: 0 <= r < size && 0 <= c < size ==>
          reserved[r, c] ==
            ((InFinder(Cell(r, c), row, col) && (r - row < dy || (r - row == dy && c - col < dx))) || old(reserved[r, c]))
      {
        var y, x := row + dy, col + dx;
        if y < 0 || x < 0 || y >= size || x >= size { continue; }
        SetModule(grid, reserved, y, x, FinderDark(dy, dx));
      }
    }
  }

  /** The three finder patterns on an empty grid. */
  function FinderLayer(size: nat, cell: Cell): Bit {
    if InFinder(cell, size - 7, 0) then FinderDark(cell.row - (size - 7), cell.col)
    else if InFinder(cell, 0, size - 7) then FinderDark(cell.row, cell.col - (size - 7))
    else if InFinder(cell, 0, 0) then FinderDark(cell.row, cell.col)
    else 0
  }

  // ---------------------------------------------------------------------------
  // Alignment patterns

  function AlignmentDark(dy: int, dx: int): Bit {
    if dy == -2 || dy == 2 || dx == -2 || dx == 2 || (dx == 0 && dy == 0) then 1 else 0
  }

  method PlaceAlignment(grid: Modules, reserved: Marks, row: int, col: int)
    requires Sized(grid, reserved, grid.Length0)
    requires 2 <= row < grid.Length0 - 2 && 2 <= col < grid.Length0 - 2
    modifies grid, reserved
    ensures forall r, c :: 0 <= r < grid.Length0 && 0 <= c < grid.Length0 ==>
      grid[r, c] == if InAlignment(Cell(r, c), row, col) then AlignmentDark(r - row, c - col) else old(grid[r, c])
    ensures forall r, c :: 0 <= r < grid.Length0 && 0 <= c < grid.Length0 ==>
      reserved[r, c] == (InAlignment(Cell(r, c), row, col) || old(reserved[r, c]))
  {
    hide AlignmentDark;
    var size := grid.Length0;
    for dy := -2 to 3
      invariant forall r, c :: 0 <= r < size && 0 <= c < size ==>
        grid[r, c] == if InAlignment(Cell(r, c), row, col) && r - row < dy then AlignmentDark(r - row, c - col) else old(grid[r, c])
      invariant forall r, c :: 0 <= r < size && 0 <= c < size ==>
        reserved[r, c] == ((InAlignment(Cell(r, c), row, col) && r - row < dy) || old(reserved[r, c]))
    {
      for dx := -2 to 3
        invariant forall r, c :: 0 <= r < size && 0 <= c < size ==>
          grid[r, c] == if InAlignment(Cell(r, c), row, col) && (r - row < dy || (r - row == dy && c - col < dx))
            then AlignmentDark(r - row, c - col) else old(grid[r, c])
        invariant forall r, c :: 0 <= r < size && 0 <= c < size ==>
          reserved[r, c] ==
            ((InAlignment(Cell(r, c), row, col) && (r - row < dy || (r - row == dy && c - col < dx))) || old(reserved[r, c]))
      {
        SetModule(grid, reserved, row + dy, col + dx, AlignmentDark(dy, dx));
      }
    }
  }

  /** The patterns of one row of centres painted over what is under them. */
  function AlignmentRowLayer(size: nat, cell: Cell, row: int, cols: seq<nat>, under: Bit): Bit {
    if cols == [] then under
    else
      var col := cols[|cols| - 1];
      if !FinderOverlap(row, col, size) && InAlignment(cell, row, col) then AlignmentDark(cell.row - row, cell.col - col)
      else AlignmentRowLayer(size, cell, row, cols[..|cols| - 1], under)
  }

  function AlignmentLayer(size: nat, cell: Cell, rows: seq<nat>, cols: seq<nat>, under: Bit): Bit {
    if rows == [] then under
    else
      AlignmentRowLayer(size, cell, rows[|rows| - 1], cols,
                        AlignmentLayer(size, cell, rows[..|rows| - 1], cols, under))
  }

  // ---------------------------------------------------------------------------
  // Timing lines, dark module and version block

  function TimingDark(cell: Cell): Bit {
    var index := if cell.row == 6 then cell.col else cell.row;
    if index % 2 == 0 then 1 else 0
  }

  function VersionStep(rem: bv32, bit: nat): bv32
    requires 12 <= bit <= 17
  {
    if (rem >> bit) & 1 == 1 then rem ^ (0x1f25 << (bit - 12)) else rem
  }

  /** The version number followed by its check bits. */
  function VersionBits(version: nat): bv32
    requires IsVersion(version)
  {
    var v := (version as bv32) << 12;
    v | VersionStep(VersionStep(VersionStep(VersionStep(VersionStep(VersionStep(v, 17), 16), 15), 14), 13), 12)
  }

  function BitOfVersion(bits: bv32, index: nat): Bit
    requires index < 18
  {
    if (bits >> index) & 1 == 1 then 1 else 0
  }

  function VersionDark(bits: bv32, size: nat, cell: Cell): Bit {
    var index := if cell.col >= size - 11 then 3 * cell.row + (cell.col - (size - 11))
                 else 3 * cell.col + (cell.row - (size - 11));
    if 0 <= index < 18 then BitOfVersion(bits, index) else 0
  }

  ghost predicate InVersionPart(size: nat, cell: Cell, index: int) {
    (0 <= cell.row && size - 11 <= cell.col < size - 8 && 3 * cell.row + (cell.col - (size - 11)) < index)
    || (0 <= cell.col && size - 11 <= cell.row < size - 8 && 3 * cell.col + (cell.row - (size - 11)) < index)
  }

  // The modules written at one index: a cell and its mirror image.
  lemma VersionPartNext(bits: bv32, size: nat, index: nat, cell: Cell)
    requires size >= 21 && index < 18 && cell.row < size && cell.col < size
    ensures var at := cell == Cell(index / 3, size - 11 + index % 3) || cell == Cell(size - 11 + index % 3, index / 3);
      && (InVersionPart(size, cell, index + 1) <==> at || InVersionPart(size, cell, index))
      && (at ==> VersionDark(bits, size, cell) == BitOfVersion(bits, index))
  {
    hide BitOfVersion;
  }

  lemma VersionParts(size: nat, cell: Cell)
    requires size >= 21 && 0 <= cell.row < size && 0 <= cell.col < size
    ensures !InVersionPart(size, cell, 0)
    ensures InVersionPart(size, cell, 18) <==> InVersion(7, size, cell)
  {}

  method PlaceVersion(grid: Modules, reserved: Marks, bits: bv32)
    requires Sized(grid, reserved, grid.Length0) && grid.Length0 >= 21
    modifies grid, reserved
    ensures forall r, c :: 0 <= r < grid.Length0 && 0 <= c < grid.Length0 ==>
      grid[r, c] == if InVersion(7, grid.Length0, Cell(r, c)) then VersionDark(bits, grid.Length0, Cell(r, c)) else old(grid[r, c])
    ensures forall r, c :: 0 <= r < grid.Length0 && 0 <= c < grid.Length0 ==>
      reserved[r, c] == (InVersion(7, grid.Length0, Cell(r, c)) || old(reserved[r, c]))
  {
    hide BitOfVersion, VersionDark, InVersionPart, InVersion;
    var size := grid.Length0;
    forall r, c | 0 <= r < size && 0 <= c < size
      ensures !InVersionPart(size, Cell(r, c), 0) && (InVersionPart(size, Cell(r, c), 18) <==> InVersion(7, size, Cell(r, c)))
    {
      VersionParts(size, Cell(r, c));
    }
    for index := 0 to 18
      invariant forall r, c :: 0 <= r < size && 0 <= c < size ==>
        grid[r, c] == if InVersionPart(size, Cell(r, c), index) then VersionDark(bits, size, Cell(r, c)) else old(grid[r, c])
      invariant forall r, c :: 0 <= r < size && 0 <= c < size ==>
        reserved[r, c] == (InVersionPart(size, Cell(r, c), index) || old(reserved[r, c]))
    {
      var dark := BitOfVersion(bits, index);
      var row, col := index / 3, index % 3;
      SetModule(grid, reserved, row, size - 11 + col, dark);
      SetModule(grid, reserved, size - 11 + col, row, dark);
      forall r, c | 0 <= r < size && 0 <= c < size
        ensures var at := (r == row && c == size - 11 + col) || (r == size - 11 + col && c == row);
          && (InVersionPart(size, Cell(r, c), index + 1) <==> at || InVersionPart(size, Cell(r, c), index))
          && (at ==> VersionDark(bits, size, Cell(r, c)) == dark)
      {
        VersionPartNext(bits, size, index, Cell(r, c));
      }
    }
  }

  // ---------------------------------------------------------------------------
  // Format bits

  function FormatStep(rem: bv16, bit: nat): bv16
    requires 10 <= bit <= 14
  {
    if (rem >> bit) & 1 == 1 then rem ^ (0x537 << (bit - 10)) else rem
  }

  /** Five data bits followed by their ten check bits, masked. */
  function FormatOf(data: bv16): bv16 {
    var rem := FormatStep(FormatStep(FormatStep(FormatStep(FormatStep(data << 10, 14), 13), 12), 11), 10);
    ((data << 10) | rem) ^ 0x5412
  }

  /** The format information of an error-correction indicator and a mask number. */
  function FormatBits(ecl: nat, mask: nat): bv16
    requires ecl < 2 && mask < 8
  {
    FormatOf((8 * ecl + mask) as bv16)
  }

  function BitOfFormat(bits: bv16, index: nat): Bit
    requires index < 15
  {
    if (bits >> index) & 1 == 1 then 1 else 0
  }

  // The check bits stay below the data bits.
  lemma FormatTop(data: bv16)
    requires data < 32
    ensures FormatOf(data) >> 10 == data ^ 0x15
  {
    var rem := FormatStep(FormatStep(FormatStep(FormatStep(FormatStep(data << 10, 14), 13), 12), 11), 10);
    assert rem < 0x400;
    FormatTopRaw(data, rem);
  }

  lemma FormatTopRaw(data: bv16, rem: bv16)
    requires data < 32 && rem < 0x400
    ensures (((data << 10) | rem) ^ 0x5412) >> 10 == data ^ 0x15
  {}

  lemma BitsFromTop(bits: bv16, top: bv16)
    requires bits >> 10 == top
    ensures BitOfFormat(bits, 10) == (if top & 1 == 1 then 1 else 0)
    ensures BitOfFormat(bits, 11) == (if (top >> 1) & 1 == 1 then 1 else 0)
    ensures BitOfFormat(bits, 12) == (if (top >> 2) & 1 == 1 then 1 else 0)
    ensures BitOfFormat(bits, 13) == (if (top >> 3) & 1 == 1 then 1 else 0)
  {}

  ghost predicate ReadsAs(bits: bv16, ecl: nat, mask: nat) {
    && ecl == BitOfFormat(bits, 13)
    && mask == 4 * (1 - BitOfFormat(bits, 12)) + 2 * BitOfFormat(bits, 11) + (1 - BitOfFormat(bits, 10))
  }

  // The data word of each level and mask number.
  lemma FormatBitsTable()
    ensures FormatBits(0, 0) == FormatOf(0) && FormatBits(0, 1) == FormatOf(1)
    ensures FormatBits(0, 2) == FormatOf(2) && FormatBits(0, 3) == FormatOf(3)
    ensures FormatBits(0, 4) == FormatOf(4) && FormatBits(0, 5) == FormatOf(5)
    ensures FormatBits(0, 6) == FormatOf(6) && FormatBits(0, 7) == FormatOf(7)
    ensures FormatBits(1, 0) == FormatOf(8) && FormatBits(1, 1) == FormatOf(9)
    ensures FormatBits(1, 2) == FormatOf(10) && FormatBits(1, 3) == FormatOf(11)
    ensures FormatBits(1, 4) == FormatOf(12) && FormatBits(1, 5) == FormatOf(13)
    ensures FormatBits(1, 6) == FormatOf(14) && FormatBits(1, 7) == FormatOf(15)
  {
    hide FormatOf;
  }

  lemma ReadsAsFlipped(data: bv16, ecl: nat, mask: nat)
    requires data < 16 && ecl == 1 - FlippedBit(data, 8)
    requires mask == 4 * (1 - FlippedBit(data, 4)) + 2 * (1 - FlippedBit(data, 2)) + (1 - FlippedBit(data, 1))
    ensures ReadsAs(FormatOf(data), ecl, mask)
  {
    hide FormatOf, BitOfFormat;
    ReadBackOf(data);
    hide FlippedBit;
  }

  /** The level and the mask number can be read from the top format bits. */
  lemma FormatBitsReadBack(ecl: nat, mask: nat)
    requires ecl < 2 && mask < 8
    ensures ReadsAs(FormatBits(ecl, mask), ecl, mask)
  {
    hide FormatBits, FormatOf, ReadsAs;
    FormatBitsTable();
    if ecl == 0 {
      if mask == 0 { ReadsAsFlipped(0, 0, 0); }
      else if mask == 1 { ReadsAsFlipped(1, 0, 1); }
      else if mask == 2 { ReadsAsFlipped(2, 0, 2); }
      else if mask == 3 { ReadsAsFlipped(3, 0, 3); }
      else if mask == 4 { ReadsAsFlipped(4, 0, 4); }
      else if mask == 5 { ReadsAsFlipped(5, 0, 5); }
      else if mask == 6 { ReadsAsFlipped(6, 0, 6); }
      else { ReadsAsFlipped(7, 0, 7); }
    } else {
      if mask == 0 { ReadsAsFlipped(8, 1, 0); }
      else if mask == 1 { ReadsAsFlipped(9, 1, 1); }
      else if mask == 2 { ReadsAsFlipped(10, 1, 2); }
      else if mask == 3 { ReadsAsFlipped(11, 1, 3); }
      else if mask == 4 { ReadsAsFlipped(12, 1, 4); }
      else if mask == 5 { ReadsAsFlipped(13, 1, 5); }
      else if mask == 6 { ReadsAsFlipped(14, 1, 6); }
      else { ReadsAsFlipped(15, 1, 7); }
    }
  }

  function FlippedBit(data: bv16, index: bv16): Bit {
    if data & index == 0 then 1 else 0
  }

  lemma ReadBackOf(data: bv16)
    requires data < 16
    ensures BitOfFormat(FormatOf(data), 13) == 1 - FlippedBit(data, 8)
    ensures BitOfFormat(FormatOf(data), 12) == FlippedBit(data, 4)
    ensures BitOfFormat(FormatOf(data), 11) == 1 - FlippedBit(data, 2)
    ensures BitOfFormat(FormatOf(data), 10) == FlippedBit(data, 1)
  {
    hide FormatOf;
    FormatTop(data);
    BitsFromTop(FormatOf(data), data ^ 0x15);
    hide BitOfFormat;
  }

  /** Which format bit a format module shows. */
  function FormatIndex(size: nat, cell: Cell): nat {
    if cell.row == 8 then
      if 0 <= cell.col < 6 then cell.col
      else if cell.col == 7 then 6
      else if cell.col == 8 || cell.col == size - 8 then 7
      else if cell.col == size - 7 then 8
      else if size - 6 <= cell.col < size then cell.col - size + 15
      else 15
    else if cell.col == 8 then
      if 0 <= cell.row < 6 then 14 - cell.row
      else if cell.row == 7 then 8
      else if cell.row == size - 7 then 6
      else if size - 6 <= cell.row < size then size - 1 - cell.row
      else 15
    else 15
  }

  lemma FormatIndexOfCell(size: nat, index: nat, second: bool)
    requires size >= 21 && index < 15
    ensures OnGrid(size, FormatCell(size, index, second))
    ensures FormatIndex(size, FormatCell(size, index, second)) == index
  {}

  lemma FormatCellOfIndex(size: nat, cell: Cell)
    requires size >= 21
    ensures InFormat(size, cell) <==> FormatIndex(size, cell) < 15
  {
    var index := FormatIndex(size, cell);
    if index < 15 {
      assert cell == FormatCell(size, index, false) || cell == FormatCell(size, index, true);
    }
    if InFormat(size, cell) {
      var i, second :| 0 <= i < 15 && cell == FormatCell(size, i, second);
      FormatIndexOfCell(size, i, second);
    }
  }

  function FormatDark(bits: bv16, size: nat, cell: Cell): Bit {
    var index := FormatIndex(size, cell);
    if index < 15 then BitOfFormat(bits, index) else 0
  }

  method PlaceFormat(grid: Modules, reserved: Marks, bits: bv16, write: bool)
    requires Sized(grid, reserved, grid.Length0) && grid.Length0 >= 21
    modifies grid, reserved
    ensures forall r, c :: 0 <= r < grid.Length0 && 0 <= c < grid.Length0 ==>
      grid[r, c] == if write && InFormat(grid.Length0, Cell(r, c)) then FormatDark(bits, grid.Length0, Cell(r, c)) else old(grid[r, c])
    ensures forall r, c :: 0 <= r < grid.Length0 && 0 <= c < grid.Length0 ==>
      reserved[r, c] == (old(reserved[r, c]) || (!write && InFormat(grid.Length0, Cell(r, c))))
  {
    hide BitOfFormat, InFormat, FormatCell, FormatIndex;
    var size := grid.Length0;
    for index := 0 to 15
      invariant forall r, c :: 0 <= r < size && 0 <= c < size ==>
        grid[r, c] == if write && FormatIndex(size, Cell(r, c)) < index then FormatDark(bits, size, Cell(r, c)) else old(grid[r, c])
      invariant forall r, c :: 0 <= r < size && 0 <= c < size ==>
        reserved[r, c] == (old(reserved[r, c]) || (!write && FormatIndex(size, Cell(r, c)) < index))
    {
      var dark := BitOfFormat(bits, index);
      var first, second := FormatCell(size, index, false), FormatCell(size, index, true);
      FormatIndexOfCell(size, index, false);
      FormatIndexOfCell(size, index, true);
      OnlyTwoCells(size, index);
      if write {
        grid[first.row, first.col] := dark;
        grid[second.row, second.col] := dark;
      } else {
        reserved[first.row, first.col] := true;
        reserved[second.row, second.col] := true;
      }
    }
    forall r, c | 0 <= r < size && 0 <= c < size
      ensures InFormat(size, Cell(r, c)) <==> FormatIndex(size, Cell(r, c)) < 15
    {
      FormatCellOfIndex(size, Cell(r, c));
    }
  }

  lemma OnlyTwoCells(size: nat, index: nat)
    requires size >= 21 && index < 15
    ensures forall r, c :: 0 <= r < size && 0 <= c < size && FormatIndex(size, Cell(r, c)) == index ==>
      Cell(r, c) == FormatCell(size, index, false) || Cell(r, c) == FormatCell(size, index, true)
  {}
}
