/** The constant tables of the pairing QR encoder: block layouts, alignment
    coordinates and remainder bits of versions 1 to 20. */
module QrTables {
  import opened Interleave
  import ReedSolomon

  ghost predicate IsVersion(version: nat) {
    1 <= version <= 20
  }

  function SizeOf(version: nat): nat
    requires version >= 1
  {
    21 + 4 * (version - 1)
  }

  function CountBits(version: nat): nat {
    if version <= 9 then 8 else 16
  }

  function RemainderBits(version: nat): nat {
    if 2 <= version <= 6 then 7
    else if 14 <= version <= 20 then 3
    else 0
  }

  function LayoutL(version: nat): BlockLayout
    requires IsVersion(version)
  {
    match version
    case 1 => BlockLayout(7, 1, 19, 0, 0)
    case 2 => BlockLayout(10, 1, 34, 0, 0)
    case 3 => BlockLayout(15, 1, 55, 0, 0)
    case 4 => BlockLayout(20, 1, 80, 0, 0)
    case 5 => BlockLayout(26, 1, 108, 0, 0)
    case 6 => BlockLayout(18, 2, 68, 0, 0)
    case 7 => BlockLayout(20, 2, 78, 0, 0)
    case 8 => BlockLayout(24, 2, 97, 0, 0)
    case 9 => BlockLayout(30, 2, 116, 0, 0)
    case 10 => BlockLayout(18, 2, 68, 2, 69)
    case 11 => BlockLayout(20, 4, 81, 0, 0)
    case 12 => BlockLayout(24, 2, 92, 2, 93)
    case 13 => BlockLayout(26, 4, 107, 0, 0)
    case 14 => BlockLayout(30, 3, 115, 1, 116)
    case 15 => BlockLayout(22, 5, 87, 1, 88)
    case 16 => BlockLayout(24, 5, 98, 1, 99)
    case 17 => BlockLayout(28, 1, 107, 5, 108)
    case 18 => BlockLayout(30, 5, 120, 1, 121)
    case 19 => BlockLayout(28, 3, 113, 4, 114)
    case _ => BlockLayout(28, 3, 107, 5, 108)
  }

  function LayoutM(version: nat): BlockLayout
    requires IsVersion(version)
  {
    match version
    case 1 => BlockLayout(10, 1, 16, 0, 0)
    case 2 => BlockLayout(16, 1, 28, 0, 0)
    case 3 => BlockLayout(26, 1, 44, 0, 0)
    case 4 => BlockLayout(18, 2, 32, 0, 0)
    case 5 => BlockLayout(24, 2, 43, 0, 0)
    case 6 => BlockLayout(16, 4, 27, 0, 0)
    case 7 => BlockLayout(18, 4, 31, 0, 0)
    case 8 => BlockLayout(22, 2, 38, 2, 39)
    case 9 => BlockLayout(22, 3, 36, 2, 37)
    case 10 => BlockLayout(26, 4, 43, 1, 44)
    case 11 => BlockLayout(30, 1, 50, 4, 51)
    case 12 => BlockLayout(22, 6, 36, 2, 37)
    case 13 => BlockLayout(22, 8, 37, 1, 38)
    case 14 => BlockLayout(24, 4, 40, 5, 41)
    case 15 => BlockLayout(24, 5, 41, 5, 42)
    case 16 => BlockLayout(28, 7, 45, 3, 46)
    case 17 => BlockLayout(28, 10, 46, 1, 47)
    case 18 => BlockLayout(26, 9, 43, 4, 44)
    case 19 => BlockLayout(26, 3, 44, 11, 45)
    case _ => BlockLayout(26, 3, 41, 13, 42)
  }

  /** The layout for a version and an error-correction indicator: 1 selects level L. */
  function LayoutOf(version: nat, ecl: nat): BlockLayout
    requires IsVersion(version)
  {
    if ecl == 1 then LayoutL(version) else LayoutM(version)
  }

  function Alignment(version: nat): seq<nat>
    requires IsVersion(version)
  {
    match version
    case 1 => []
    case 2 => [6, 18]
    case 3 => [6, 22]
    case 4 => [6, 26]
    case 5 => [6, 30]
    case 6 => [6, 34]
    case 7 => [6, 22, 38]
    case 8 => [6, 24, 42]
    case 9 => [6, 26, 46]
    case 10 => [6, 28, 50]
    case 11 => [6, 30, 54]
    case 12 => [6, 32, 58]
    case 13 => [6, 34, 62]
    case 14 => [6, 26, 46, 66]
    case 15 => [6, 26, 48, 70]
    case 16 => [6, 26, 50, 74]
    case 17 => [6, 30, 54, 78]
    case 18 => [6, 30, 56, 82]
    case 19 => [6, 30, 58, 86]
    case _ => [6, 34, 62, 90]
  }

  /** Codewords of a symbol, data and check bytes together. */
  function TotalCodewords(version: nat): nat
    requires IsVersion(version)
  {
    match version
    case 1 => 26
    case 2 => 44
    case 3 => 70
    case 4 => 100
    case 5 => 134
    case 6 => 172
    case 7 => 196
    case 8 => 242
    case 9 => 292
    case 10 => 346
    case 11 => 404
    case 12 => 466
    case 13 => 532
    case 14 => 581
    case 15 => 655
    case 16 => 733
    case 17 => 815
    case 18 => 901
    case 19 => 991
    case _ => 1085
  }

  ghost predicate FillsSymbol(layout: BlockLayout, version: nat)
    requires IsVersion(version)
  {
    && 7 <= layout.ecPerBlock <= 30
    && DataCodewords(layout) + BlockCount(layout) * layout.ecPerBlock == TotalCodewords(version)
    && DataCodewords(layout) < (if version <= 9 then 256 else 1000)
  }

  lemma LayoutLFacts(version: nat)
    requires IsVersion(version)
    ensures FillsSymbol(LayoutL(version), version)
  {
    match version
    case 1 => case 2 => case 3 => case 4 => case 5 => case 6 => case 7 => case 8 => case 9 => case 10 =>
    case 11 => case 12 => case 13 => case 14 => case 15 => case 16 => case 17 => case 18 => case 19 => case _ =>
  }

  lemma LayoutMFacts(version: nat)
    requires IsVersion(version)
    ensures FillsSymbol(LayoutM(version), version)
  {
    match version
    case 1 => case 2 => case 3 => case 4 => case 5 => case 6 => case 7 => case 8 => case 9 => case 10 =>
    case 11 => case 12 => case 13 => case 14 => case 15 => case 16 => case 17 => case 18 => case 19 => case _ =>
  }

  /** Data and check bytes of either level fill the same number of codewords. */
  lemma LayoutFacts(version: nat, ecl: nat)
    requires IsVersion(version)
    ensures FillsSymbol(LayoutOf(version, ecl), version)
  {
    hide FillsSymbol, LayoutL, LayoutM;
    LayoutLFacts(version);
    LayoutMFacts(version);
  }

  lemma LayoutHasBlocks(version: nat, ecl: nat)
    requires IsVersion(version)
    ensures var layout := LayoutOf(version, ecl);
      layout.g1Blocks >= 1 && layout.g1Data >= 1 && (layout.g2Blocks >= 1 ==> layout.g2Data >= 1)
  {}

  /** At every version and level, blocks of both sizes have codewords without the roots. */
  lemma NoLayoutHasRoots(version: nat, ecl: nat)
    requires IsVersion(version)
    ensures var layout := LayoutOf(version, ecl);
      && layout.ecPerBlock >= 1
      && !ReedSolomon.BlocksHaveRoots(layout.ecPerBlock, layout.g1Data)
      && (layout.g2Blocks >= 1 ==> !ReedSolomon.BlocksHaveRoots(layout.ecPerBlock, layout.g2Data))
  {
    hide LayoutOf, ReedSolomon.BlocksHaveRoots, ReedSolomon.CodewordsHaveRoots;
    var layout := LayoutOf(version, ecl);
    LayoutFacts(version, ecl);
    LayoutHasBlocks(version, ecl);
    ReedSolomon.CodewordsHaveRootsExactly(layout.ecPerBlock, layout.g1Data);
    if layout.g2Blocks >= 1 {
      ReedSolomon.CodewordsHaveRootsExactly(layout.ecPerBlock, layout.g2Data);
    }
  }

  /** The coordinates start at the timing line, end seven short of the far edge and
      stay clear of the corners in between. */
  lemma AlignmentFacts(version: nat)
    requires IsVersion(version)
    ensures version == 1 <==> Alignment(version) == []
    ensures version > 1 ==> |Alignment(version)| >= 2
    ensures version > 1 ==> Alignment(version)[0] == 6
    ensures version > 1 ==> Alignment(version)[|Alignment(version)| - 1] == SizeOf(version) - 7
    ensures forall i :: 0 < i < |Alignment(version)| - 1 ==> 11 <= Alignment(version)[i] <= SizeOf(version) - 11
  {}

  /** Neighbouring coordinates are far enough apart for the patterns not to touch. */
  lemma AlignmentSpacing(version: nat, i: nat, j: nat)
    requires IsVersion(version) && i < j < |Alignment(version)|
    ensures Alignment(version)[j] - Alignment(version)[i] >= 12
  {}
}
