/** What the function patterns of a symbol look like once all of them are drawn, after
    ISO/IEC 18004:2015. */
module QrPatterns {
  import opened Common
  import opened BitStream
  import opened Interleave
  import opened QrTables
  import opened QrLayout
  import opened QrPlacement
  import opened QrMatrix
  import QrPenalty

  type Picture = seq<string>

  // ---------------------------------------------------------------------------
  // Pictures; # is dark

  /** A finder with its separator. */
  function FinderPicture(): (p: Picture)
    ensures |p| == 9 && forall row :: 0 <= row < 9 ==> |p[row]| == 9
  {
    [".........",
     ".#######.",
     ".#.....#.",
     ".#.###.#.",
     ".#.###.#.",
     ".#.###.#.",
     ".#.....#.",
     ".#######.",
     "........."]
  }

  function AlignmentPicture(): (p: Picture)
    ensures |p| == 5 && forall row :: 0 <= row < 5 ==> |p[row]| == 5
  {
    ["#####",
     "#...#",
     "#.#.#",
     "#...#",
     "#####"]
  }

  function Shade(c: char): Bit {
    if c == '#' then 1 else 0
  }

  lemma FinderIsDrawn(dy: int, dx: int)
    requires -1 <= dy <= 7 && -1 <= dx <= 7
    ensures FinderDark(dy, dx) == Shade(FinderPicture()[dy + 1][dx + 1])
  {}

  lemma AlignmentIsDrawn(dy: int, dx: int)
    requires -2 <= dy <= 2 && -2 <= dx <= 2
    ensures AlignmentDark(dy, dx) == Shade(AlignmentPicture()[dy + 2][dx + 2])
  {}

  /** What the penalty looks for is the middle line of a finder, either way. */
  lemma PenaltyFinderIsDrawn(k: nat)
    requires k < 7
    ensures QrPenalty.FINDER[k] == Shade(FinderPicture()[4][k + 1]) == Shade(FinderPicture()[k + 1][4])
  {}

  // ---------------------------------------------------------------------------
  // No pattern damages another

  predicate IsCorner(size: nat, row: int, col: int) {
    (row == 0 && col == 0) || (row == 0 && col == size - 7) || (row == size - 7 && col == 0)
  }

  predicate IsCentre(size: nat, at: int) {
    at == 6 || at == size - 7 || 18 <= at <= size - 19
  }

  lemma Centres(version: nat)
    requires IsVersion(version)
    ensures forall i :: 0 <= i < |Alignment(version)| ==> IsCentre(SizeOf(version), Alignment(version)[i])
  {
    AlignmentFacts(version);
    forall i | 0 <= i < |Alignment(version)|
      ensures IsCentre(SizeOf(version), Alignment(version)[i])
    {
      if 0 < i { AlignmentSpacing(version, 0, i); }
      if i < |Alignment(version)| - 1 { AlignmentSpacing(version, i, |Alignment(version)| - 1); }
    }
  }

  lemma {:induction false} RowMisses(size: nat, cell: Cell, row: int, cols: seq<nat>, under: Bit)
    requires forall j :: 0 <= j < |cols| ==> FinderOverlap(row, cols[j], size) || !InAlignment(cell, row, cols[j])
    ensures AlignmentRowLayer(size, cell, row, cols, under) == under
  {
    hide FinderOverlap, InAlignment;
    if cols != [] { RowMisses(size, cell, row, cols[..|cols| - 1], under); }
  }

  lemma {:induction false} LayerMisses(size: nat, cell: Cell, rows: seq<nat>, cols: seq<nat>, under: Bit)
    requires forall i, j :: 0 <= i < |rows| && 0 <= j < |cols| ==> FinderOverlap(rows[i], cols[j], size) || !InAlignment(cell, rows[i], cols[j])
    ensures AlignmentLayer(size, cell, rows, cols, under) == under
  {
    hide FinderOverlap, InAlignment, AlignmentRowLayer;
    if rows != [] {
      LayerMisses(size, cell, rows[..|rows| - 1], cols, under);
      RowMisses(size, cell, rows[|rows| - 1], cols, under);
    }
  }

  /** The three finders and their separators are whole. */
  lemma FindersStand(version: nat, cell: Cell, row: int, col: int)
    requires IsVersion(version) && IsCorner(SizeOf(version), row, col)
    requires OnGrid(SizeOf(version), cell) && InFinder(cell, row, col)
    ensures FunctionModule(version, cell) == Shade(FinderPicture()[cell.row - row + 1][cell.col - col + 1])
  {
    hide FinderDark, AlignmentLayer, Alignment, VersionBits, FinderPicture;
    var size := SizeOf(version);
    Centres(version);
    LayerMisses(size, cell, Alignment(version), Alignment(version), FinderLayer(size, cell));
    FinderIsDrawn(cell.row - row, cell.col - col);
  }

  lemma {:induction false} RowHits(size: nat, cell: Cell, row: int, cols: seq<nat>, j: nat, under: Bit)
    requires j < |cols| && !FinderOverlap(row, cols[j], size) && InAlignment(cell, row, cols[j])
    requires forall k :: 0 <= k < |cols| && k != j ==> !InAlignment(cell, row, cols[k])
    ensures AlignmentRowLayer(size, cell, row, cols, under) == AlignmentDark(cell.row - row, cell.col - cols[j])
  {
    hide FinderOverlap, InAlignment, AlignmentDark;
    if j < |cols| - 1 { RowHits(size, cell, row, cols[..|cols| - 1], j, under); }
  }

  lemma {:induction false} LayerHits(size: nat, cell: Cell, rows: seq<nat>, cols: seq<nat>, i: nat, j: nat, under: Bit)
    requires i < |rows| && j < |cols| && !FinderOverlap(rows[i], cols[j], size) && InAlignment(cell, rows[i], cols[j])
    requires forall k, l :: 0 <= k < |rows| && 0 <= l < |cols| && (k != i || l != j) ==> !InAlignment(cell, rows[k], cols[l])
    ensures AlignmentLayer(size, cell, rows, cols, under) == AlignmentDark(cell.row - rows[i], cell.col - cols[j])
  {
    hide FinderOverlap, InAlignment, AlignmentRowLayer, AlignmentDark;
    var last := |rows| - 1;
    var lower := AlignmentLayer(size, cell, rows[..last], cols, under);
    if i == last {
      RowHits(size, cell, rows[i], cols, j, lower);
    } else {
      LayerHits(size, cell, rows[..last], cols, i, j, under);
      RowMisses(size, cell, rows[last], cols, lower);
    }
  }

  /** Every alignment pattern that is drawn is whole; where it meets a timing line the two
      agree. */
  lemma AlignmentsStand(version: nat, i: nat, j: nat, dy: int, dx: int)
    requires IsVersion(version) && i < |Alignment(version)| && j < |Alignment(version)|
    requires !FinderOverlap(Alignment(version)[i], Alignment(version)[j], SizeOf(version))
    requires -2 <= dy <= 2 && -2 <= dx <= 2
    ensures FunctionModule(version, Cell(Alignment(version)[i] + dy, Alignment(version)[j] + dx))
         == Shade(AlignmentPicture()[dy + 2][dx + 2])
  {
    hide AlignmentLayer, Alignment, VersionBits, AlignmentPicture, FinderLayer;
    var size, at := SizeOf(version), Alignment(version);
    var cell := Cell(at[i] + dy, at[j] + dx);
    Centres(version);
    EvenCentres(version);
    forall k, l | 0 <= k < |at| && 0 <= l < |at| && (k != i || l != j)
      ensures !InAlignment(cell, at[k], at[l])
    {
      if k < i { AlignmentSpacing(version, k, i); } else if i < k { AlignmentSpacing(version, i, k); }
      if l < j { AlignmentSpacing(version, l, j); } else if j < l { AlignmentSpacing(version, j, l); }
    }
    LayerHits(size, cell, at, at, i, j, FinderLayer(size, cell));
    AlignmentIsDrawn(dy, dx);
  }

  lemma EvenCentres(version: nat)
    requires IsVersion(version)
    ensures forall i :: 0 <= i < |Alignment(version)| ==> Alignment(version)[i] % 2 == 0
  {}

  /** The timing lines alternate, dark at the even places, between the separators. */
  lemma TimingStands(version: nat, at: nat)
    requires IsVersion(version) && 8 <= at <= SizeOf(version) - 9
    ensures FunctionModule(version, Cell(6, at)) == 1 - at % 2 && FunctionModule(version, Cell(at, 6)) == 1 - at % 2
  {
    hide AlignmentLayer, VersionBits;
  }

  /** The dark module. */
  lemma DarkModuleStands(version: nat)
    requires IsVersion(version)
    ensures FunctionModule(version, Cell(4 * version + 9, 8)) == 1
  {
    hide AlignmentLayer, VersionBits;
  }

  // ---------------------------------------------------------------------------
  // Alignment coordinates

  /** The distance between neighbouring centres, counted from the far edge. */
  function Step(version: nat): nat
    requires 2 <= version <= 20
  {
    var n := version / 7 + 2;
    (4 * version + 2 * n + 1) / (2 * n - 2) * 2
  }

  ghost predicate IsSteps(at: seq<nat>, count: nat, step: nat, far: int) {
    && |at| == count >= 2 && at[0] == 6
    && forall i :: 1 <= i < count ==> at[i] == far - (count - 1 - i) * step
  }

  lemma FewSteps(version: nat)
    requires 2 <= version < 14
    ensures IsSteps(Alignment(version), version / 7 + 2, Step(version), SizeOf(version) - 7)
  {}

  lemma ManySteps(version: nat)
    requires 14 <= version <= 20
    ensures IsSteps(Alignment(version), version / 7 + 2, Step(version), SizeOf(version) - 7)
  {}

  /** The centres are six, and from the far edge backwards in equal even steps. */
  lemma CentresByStep(version: nat)
    requires 2 <= version <= 20
    ensures IsSteps(Alignment(version), version / 7 + 2, Step(version), SizeOf(version) - 7)
  {
    if version < 14 { FewSteps(version); } else { ManySteps(version); }
  }

  /** The length is counted in eight bits exactly when eight bits can count the data. */
  lemma CountBitsSuffice(version: nat)
    requires IsVersion(version)
    ensures CountBits(version) == if DataCodewords(LayoutOf(version, 1)) < 256 then 8 else 16
    ensures DataCodewords(LayoutOf(version, 0)) < DataCodewords(LayoutOf(version, 1)) < 0x1_0000
  {
    match version
    case 1 => case 2 => case 3 => case 4 => case 5 => case 6 => case 7 => case 8 => case 9 => case 10 =>
    case 11 => case 12 => case 13 => case 14 => case 15 => case 16 => case 17 => case 18 => case 19 => case _ =>
  }

  /** The blocks share the data codewords out evenly, the shorter ones first. */
  lemma BlocksAreEven(version: nat, ecl: nat)
    requires IsVersion(version)
    ensures var layout := LayoutOf(version, ecl); var data := TotalCodewords(version) - BlockCount(layout) * layout.ecPerBlock;
      && layout.g1Data == data / BlockCount(layout)
      && layout.g2Blocks == data % BlockCount(layout)
      && (layout.g2Blocks > 0 ==> layout.g2Data == layout.g1Data + 1)
  {
    if ecl == 1 { EvenBlocksL(version); } else { EvenBlocksM(version); }
  }

  lemma EvenBlocksL(version: nat)
    requires IsVersion(version)
    ensures var layout := LayoutL(version); var data := TotalCodewords(version) - BlockCount(layout) * layout.ecPerBlock;
      && layout.g1Data == data / BlockCount(layout)
      && layout.g2Blocks == data % BlockCount(layout)
      && (layout.g2Blocks > 0 ==> layout.g2Data == layout.g1Data + 1)
  {
    match version
    case 1 => case 2 => case 3 => case 4 => case 5 => case 6 => case 7 => case 8 => case 9 => case 10 =>
    case 11 => case 12 => case 13 => case 14 => case 15 => case 16 => case 17 => case 18 => case 19 => case _ =>
  }

  lemma EvenBlocksM(version: nat)
    requires IsVersion(version)
    ensures var layout := LayoutM(version); var data := TotalCodewords(version) - BlockCount(layout) * layout.ecPerBlock;
      && layout.g1Data == data / BlockCount(layout)
      && layout.g2Blocks == data % BlockCount(layout)
      && (layout.g2Blocks > 0 ==> layout.g2Data == layout.g1Data + 1)
  {
    match version
    case 1 => case 2 => case 3 => case 4 => case 5 => case 6 => case 7 => case 8 => case 9 => case 10 =>
    case 11 => case 12 => case 13 => case 14 => case 15 => case 16 => case 17 => case 18 => case 19 => case _ =>
  }

  // ---------------------------------------------------------------------------
  // Format and version words

  // The check bits of a word, one step of the division after the other.
  lemma FormatChain(data: bv16, r1: bv16, r2: bv16, r3: bv16, r4: bv16, r5: bv16)
    requires FormatStep(data << 10, 14) == r1 && FormatStep(r1, 13) == r2 && FormatStep(r2, 12) == r3
    requires FormatStep(r3, 11) == r4 && FormatStep(r4, 10) == r5
    ensures FormatOf(data) == ((data << 10) | r5) ^ 0x5412
  {}

  lemma WordsM()
    ensures FormatOf(0) == 0x5412 && FormatOf(1) == 0x5125 && FormatOf(2) == 0x5E7C && FormatOf(3) == 0x5B4B
    ensures FormatOf(4) == 0x45F9 && FormatOf(5) == 0x40CE && FormatOf(6) == 0x4F97 && FormatOf(7) == 0x4AA0
  {
    hide FormatOf;
    FormatChain(0, 0x0000, 0x0000, 0x0000, 0x0000, 0x0000);
    FormatChain(1, 0x0400, 0x0400, 0x0400, 0x0400, 0x0137);
    FormatChain(2, 0x0800, 0x0800, 0x0800, 0x026E, 0x026E);
    FormatChain(3, 0x0C00, 0x0C00, 0x0C00, 0x066E, 0x0359);
    FormatChain(4, 0x1000, 0x1000, 0x04DC, 0x04DC, 0x01EB);
    FormatChain(5, 0x1400, 0x1400, 0x00DC, 0x00DC, 0x00DC);
    FormatChain(6, 0x1800, 0x1800, 0x0CDC, 0x06B2, 0x0385);
    FormatChain(7, 0x1C00, 0x1C00, 0x08DC, 0x02B2, 0x02B2);
  }

  lemma WordsL()
    ensures FormatOf(8) == 0x77C4 && FormatOf(9) == 0x72F3 && FormatOf(10) == 0x7DAA && FormatOf(11) == 0x789D
    ensures FormatOf(12) == 0x662F && FormatOf(13) == 0x6318 && FormatOf(14) == 0x6C41 && FormatOf(15) == 0x6976
  {
    hide FormatOf;
    FormatChain(8, 0x2000, 0x09B8, 0x09B8, 0x03D6, 0x03D6);
    FormatChain(9, 0x2400, 0x0DB8, 0x0DB8, 0x07D6, 0x02E1);
    FormatChain(10, 0x2800, 0x01B8, 0x01B8, 0x01B8, 0x01B8);
    FormatChain(11, 0x2C00, 0x05B8, 0x05B8, 0x05B8, 0x008F);
    FormatChain(12, 0x3000, 0x19B8, 0x0D64, 0x070A, 0x023D);
    FormatChain(13, 0x3400, 0x1DB8, 0x0964, 0x030A, 0x030A);
    FormatChain(14, 0x3800, 0x11B8, 0x0564, 0x0564, 0x0053);
    FormatChain(15, 0x3C00, 0x15B8, 0x0164, 0x0164, 0x0164);
  }

  /** The format words of levels M and L, as in table C.1 of the standard. */
  lemma FormatWords()
    ensures FormatBits(0, 0) == 0x5412 && FormatBits(0, 1) == 0x5125 && FormatBits(0, 2) == 0x5E7C && FormatBits(0, 3) == 0x5B4B
    ensures FormatBits(0, 4) == 0x45F9 && FormatBits(0, 5) == 0x40CE && FormatBits(0, 6) == 0x4F97 && FormatBits(0, 7) == 0x4AA0
    ensures FormatBits(1, 0) == 0x77C4 && FormatBits(1, 1) == 0x72F3 && FormatBits(1, 2) == 0x7DAA && FormatBits(1, 3) == 0x789D
    ensures FormatBits(1, 4) == 0x662F && FormatBits(1, 5) == 0x6318 && FormatBits(1, 6) == 0x6C41 && FormatBits(1, 7) == 0x6976
  {
    hide FormatBits, FormatOf;
    FormatBitsTable();
    WordsM();
    WordsL();
  }

  lemma VersionWordsTo9()
    ensures VersionBits(7) == 0x07C94 && VersionBits(8) == 0x085BC && VersionBits(9) == 0x09A99
  {}

  lemma VersionWordsTo11()
    ensures VersionBits(10) == 0x0A4D3 && VersionBits(11) == 0x0BBF6
  {}

  lemma VersionWordsTo16()
    ensures VersionBits(12) == 0x0C762 && VersionBits(13) == 0x0D847 && VersionBits(14) == 0x0E60D
    ensures VersionBits(15) == 0x0F928 && VersionBits(16) == 0x10B78
  {}

  lemma VersionWordsTo20()
    ensures VersionBits(17) == 0x1145D && VersionBits(18) == 0x12A17 && VersionBits(19) == 0x13532 && VersionBits(20) == 0x149A6
  {}

  /** The version words, as in table D.1 of the standard. */
  lemma VersionWords()
    ensures VersionBits(7) == 0x07C94 && VersionBits(8) == 0x085BC && VersionBits(9) == 0x09A99 && VersionBits(10) == 0x0A4D3
    ensures VersionBits(11) == 0x0BBF6 && VersionBits(12) == 0x0C762 && VersionBits(13) == 0x0D847 && VersionBits(14) == 0x0E60D
    ensures VersionBits(15) == 0x0F928 && VersionBits(16) == 0x10B78 && VersionBits(17) == 0x1145D && VersionBits(18) == 0x12A17
    ensures VersionBits(19) == 0x13532 && VersionBits(20) == 0x149A6
  {
    hide VersionBits;
    VersionWordsTo9();
    VersionWordsTo11();
    VersionWordsTo16();
    VersionWordsTo20();
  }

  /** Bit k of the version word stands in row k / 3 of the upper block and, mirrored, in the
      lower one. */
  lemma VersionStands(version: nat, k: nat)
    requires 7 <= version <= 20 && k < 18
    ensures var size, bit: Bit := SizeOf(version), if (VersionBits(version) >> k) % 2 == 1 then 1 else 0;
      && FunctionModule(version, Cell(k / 3, size - 11 + k % 3)) == bit
      && FunctionModule(version, Cell(size - 11 + k % 3, k / 3)) == bit
  {
    hide AlignmentLayer, VersionBits;
    VersionBitIs(VersionBits(version), k);
    hide BitOfVersion;
  }

  lemma VersionBitIs(bits: bv32, k: nat)
    requires k < 18
    ensures BitOfVersion(bits, k) == if (bits >> k) % 2 == 1 then 1 else 0
  {
    OddWord(bits >> k);
  }

  lemma OddWord(word: bv32)
    ensures word & 1 == word % 2
  {}

  /** Bit k of a word, from the lowest up. */
  function WordBit(word: bv16, k: nat): Bit
    requires k < 16
  {
    if (word >> k) % 2 == 1 then 1 else 0
  }

  lemma FormatBitIs(bits: bv16, k: nat)
    requires k < 15
    ensures BitOfFormat(bits, k) == WordBit(bits, k)
  {
    OddHalfWord(bits >> k);
  }

  lemma OddHalfWord(word: bv16)
    ensures word & 1 == word % 2
  {}

  predicate Shows(lines: seq<seq<Bit>>, cell: Cell, bit: Bit) {
    0 <= cell.row < |lines| && 0 <= cell.col < |lines[cell.row]| && lines[cell.row][cell.col] == bit
  }

  lemma ReservedShows(lines: seq<seq<Bit>>, version: nat, ecl: nat, mask: nat, bits: seq<Bit>, cell: Cell)
    requires IsVersion(version) && ecl < 2 && mask < 8 && IsSymbol(lines, version, ecl, mask, bits)
    requires InFormat(SizeOf(version), cell)
    ensures Shows(lines, cell, FormatDark(FormatBits(ecl, mask), SizeOf(version), cell))
  {
    hide InFormat, FormatBits, FunctionModule, Masked, FreeWalk, FormatDark, InSomeAlignment;
    FormatIsReserved(version, cell);
    assert cell == Cell(cell.row, cell.col);
  }

  /** In a finished symbol every format bit stands in both its places. */
  lemma FormatStands(lines: seq<seq<Bit>>, version: nat, ecl: nat, mask: nat, bits: seq<Bit>, k: nat, second: bool)
    requires IsVersion(version) && ecl < 2 && mask < 8 && k < 15 && IsSymbol(lines, version, ecl, mask, bits)
    ensures Shows(lines, FormatCell(SizeOf(version), k, second), WordBit(FormatBits(ecl, mask), k))
  {
    hide IsSymbol, FormatBits, FormatCell, BitOfFormat, Shows, WordBit;
    var cell := FormatCell(SizeOf(version), k, second);
    FormatIndexOfCell(SizeOf(version), k, second);
    assert InFormat(SizeOf(version), cell);
    ReservedShows(lines, version, ecl, mask, bits, cell);
    FormatBitIs(FormatBits(ecl, mask), k);
  }

  /** Where the fifteen format bits stand, from the lowest up: beside the upper left finder,
      and along the other two. */
  lemma FormatPlaces(size: nat)
    requires size >= 21
    ensures seq(15, k requires 0 <= k < 15 => FormatCell(size, k, false)) ==
      [Cell(8, 0), Cell(8, 1), Cell(8, 2), Cell(8, 3), Cell(8, 4), Cell(8, 5), Cell(8, 7), Cell(8, 8),
       Cell(7, 8), Cell(5, 8), Cell(4, 8), Cell(3, 8), Cell(2, 8), Cell(1, 8), Cell(0, 8)]
    ensures seq(15, k requires 0 <= k < 15 => FormatCell(size, k, true)) ==
      [Cell(size - 1, 8), Cell(size - 2, 8), Cell(size - 3, 8), Cell(size - 4, 8), Cell(size - 5, 8), Cell(size - 6, 8),
       Cell(size - 7, 8), Cell(8, size - 8), Cell(8, size - 7), Cell(8, size - 6), Cell(8, size - 5), Cell(8, size - 4),
       Cell(8, size - 3), Cell(8, size - 2), Cell(8, size - 1)]
  {}
}
