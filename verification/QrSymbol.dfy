/** The whole encoder, from payload to symbol, and a reader that gets the payload
    back from the modules alone. */
module QrSymbol {
  import opened Common
  import opened Gf256
  import opened BitStream
  import opened Interleave
  import opened QrTables
  import opened QrLayout
  import opened QrPlacement
  import opened QrMatrix
  import QrPenalty
  import QrReserved
  import QrMasks

  ghost predicate Fits(payload: seq<bv8>, version: nat, ecl: nat)
    requires IsVersion(version)
  {
    4 + CountBits(version) + 8 * |payload| <= 8 * DataCodewords(LayoutOf(version, ecl))
  }

  /** The codeword sequence of a payload. */
  ghost function Codewords(payload: seq<bv8>, version: nat, ecl: nat): (codewords: seq<bv8>)
    requires IsVersion(version) && Fits(payload, version, ecl)
    ensures |codewords| == TotalCodewords(version)
  {
    var layout := LayoutOf(version, ecl);
    LayoutFacts(version, ecl);
    var data := Encoded(payload, CountBits(version), DataCodewords(layout));
    InterleavedLength(data, layout);
    Interleaved(data, layout)
  }

  ghost function SymbolBits(payload: seq<bv8>, version: nat, ecl: nat): (bits: seq<Bit>)
    requires IsVersion(version) && Fits(payload, version, ecl)
    ensures |bits| == 8 * TotalCodewords(version) + RemainderBits(version)
  {
    BytesToBits(Codewords(payload, version, ecl)) + ZeroBits(RemainderBits(version))
  }

  // ---------------------------------------------------------------------------
  // Building the symbol

  method CodewordBits(codewords: seq<bv8>, remainder: nat) returns (bits: seq<Bit>)
    ensures bits == BytesToBits(codewords) + ZeroBits(remainder)
  {
    hide BytesToBits, ByteBits;
    bits := [];
    BytesToBitsEmpty();
    for index := 0 to |codewords|
      invariant bits == BytesToBits(codewords[..index])
    {
      ByteBitsIs(codewords[index]);
      bits := PushBits(bits, Value(codewords[index]), 8);
      BytesToBitsNext(codewords, index);
    }
    assert codewords[..|codewords|] == codewords;
    ghost var all := bits;
    for index := 0 to remainder
      invariant bits == all + ZeroBits(index)
    {
      bits := bits + [0];
    }
  }

  /** The bits of a payload that fits are exactly as many as the free modules. */
  lemma BitsFillSymbol(payload: seq<bv8>, version: nat, ecl: nat)
    requires IsVersion(version) && Fits(payload, version, ecl)
    ensures |SymbolBits(payload, version, ecl)| == |FreeWalk(version)|
  {
    hide SymbolBits, FreeWalk, Fits;
    QrReserved.SymbolHoldsCodewords(version);
  }

  lemma SymbolIsSquare(lines: seq<seq<Bit>>, version: nat, ecl: nat, mask: nat, bits: seq<Bit>)
    requires IsVersion(version) && ecl < 2 && mask < 8 && IsSymbol(lines, version, ecl, mask, bits)
    ensures QrPenalty.IsSquare(lines) && lines != [] && |lines| == SizeOf(version)
  {
    hide Reserved, InFormat, FormatDark, FormatBits, FunctionModule, Masked, BitAt, FreeWalk;
  }

  /** best is the symbol with the given mask; no mask scores less, and no earlier mask
      scores the same. */
  ghost predicate IsBestSymbol(best: seq<seq<Bit>>, version: nat, ecl: nat, mask: nat, bits: seq<Bit>, upTo: nat)
    requires IsVersion(version) && ecl < 2 && upTo <= 8 && mask < 8
  {
    && IsSymbol(best, version, ecl, mask, bits)
    && mask < upTo
    && QrPenalty.IsSquare(best) && best != []
    && forall m: nat, lines ::
         m < upTo && IsSymbol(lines, version, ecl, m, bits) && QrPenalty.IsSquare(lines) && lines != [] ==>
           && QrPenalty.PenaltyOf(best) <= QrPenalty.PenaltyOf(lines)
           && (m < mask ==> QrPenalty.PenaltyOf(best) < QrPenalty.PenaltyOf(lines))
  }

  /** The symbol of a payload that fits: the first of the eight masked candidates
      whose penalty is least. */
  method BuildMatrix(t: Tables, payload: seq<bv8>, version: nat, ecl: nat)
    returns (best: seq<seq<Bit>>)
    requires IsFieldTables(t) && IsVersion(version) && ecl < 2 && Fits(payload, version, ecl)
    ensures exists mask: nat :: mask < 8 && IsBestSymbol(best, version, ecl, mask, SymbolBits(payload, version, ecl), 8)
  {
    hide IsFieldTables, LayoutOf, Encoded, Interleaved, TotalCodewords, BytesToBits, Reserved, FunctionModule,
         IsSymbol, Filled, QrPenalty.PenaltyOf, QrPenalty.IsSquare, FreeWalk, Walk;
    var layout := LayoutOf(version, ecl);
    LayoutFacts(version, ecl);
    var data := EncodeData(payload, CountBits(version), DataCodewords(layout));
    var codewords := InterleaveBlocks(t, data, layout);
    var size := SizeOf(version);
    var grid := new Bit[size, size]((_, _) => 0);
    var reserved := new bool[size, size]((_, _) => false);
    PlaceFunctionPatterns(version, grid, reserved);
    ghost var base := Rows(grid);
    var bits := CodewordBits(codewords, RemainderBits(version));
    assert bits == SymbolBits(payload, version, ecl);
    FillCodewords(version, grid, reserved, bits);
    UnmaskedAfterFill(version, grid, base, bits);

    var bestScore := 0;
    best := [];
    ghost var bestMask: nat := 0;
    for mask := 0 to 8
      invariant Marked(version, reserved) && IsUnmasked(version, grid, bits)
      invariant bestMask < 8
      invariant mask > 0 ==> IsBestSymbol(best, version, ecl, bestMask, bits, mask)
      invariant mask > 0 ==> bestScore == QrPenalty.PenaltyOf(best)
    {
      var candidate := Candidate(version, ecl, mask, grid, reserved, bits);
      SymbolIsSquare(candidate, version, ecl, mask, bits);
      var score := QrPenalty.Penalty(candidate);
      if mask == 0 || score < bestScore {
        NewBest(best, bestMask, candidate, version, ecl, mask, bits);
        bestScore := score;
        best := candidate;
        bestMask := mask;
      } else {
        KeepBest(best, bestMask, candidate, version, ecl, mask, bits);
      }
    }
  }

  lemma UnmaskedAfterFill(version: nat, grid: Modules, base: seq<seq<Bit>>, bits: seq<Bit>)
    requires IsVersion(version) && grid.Length0 == grid.Length1 == SizeOf(version) && IsGrid(base, SizeOf(version))
    requires Filled(version, grid, base, bits, |FreeWalk(version)|, Walk(SizeOf(version)))
    requires forall r, c :: 0 <= r < SizeOf(version) && 0 <= c < SizeOf(version) ==>
      base[r][c] == FunctionModule(version, Cell(r, c))
    ensures IsUnmasked(version, grid, bits)
  {
    hide Reserved, FunctionModule, Free, Walk;
  }

  lemma NewBest(best: seq<seq<Bit>>, bestMask: nat, candidate: seq<seq<Bit>>,
                version: nat, ecl: nat, mask: nat, bits: seq<Bit>)
    requires IsVersion(version) && ecl < 2 && mask < 8 && bestMask < 8
    requires IsSymbol(candidate, version, ecl, mask, bits) && QrPenalty.IsSquare(candidate) && candidate != []
    requires mask > 0 ==> IsBestSymbol(best, version, ecl, bestMask, bits, mask)
    requires mask > 0 ==> QrPenalty.PenaltyOf(candidate) < QrPenalty.PenaltyOf(best)
    ensures IsBestSymbol(candidate, version, ecl, mask, bits, mask + 1)
  {
    hide IsSymbol, QrPenalty.PenaltyOf, QrPenalty.IsSquare;
    forall lines | IsSymbol(lines, version, ecl, mask, bits)
      ensures lines == candidate
    {
      SymbolUnique(lines, candidate, version, ecl, mask, bits);
    }
  }

  lemma KeepBest(best: seq<seq<Bit>>, bestMask: nat, candidate: seq<seq<Bit>>,
                 version: nat, ecl: nat, mask: nat, bits: seq<Bit>)
    requires IsVersion(version) && ecl < 2 && 0 < mask < 8 && bestMask < 8
    requires IsSymbol(candidate, version, ecl, mask, bits) && QrPenalty.IsSquare(candidate) && candidate != []
    requires IsBestSymbol(best, version, ecl, bestMask, bits, mask)
    requires QrPenalty.PenaltyOf(candidate) >= QrPenalty.PenaltyOf(best)
    ensures IsBestSymbol(best, version, ecl, bestMask, bits, mask + 1)
  {
    hide IsSymbol, QrPenalty.PenaltyOf, QrPenalty.IsSquare;
    forall lines | IsSymbol(lines, version, ecl, mask, bits)
      ensures lines == candidate
    {
      SymbolUnique(lines, candidate, version, ecl, mask, bits);
    }
  }

  // ---------------------------------------------------------------------------
  // Reading a symbol

  function FormatModule(lines: seq<seq<Bit>>, index: nat): Bit
    requires 9 <= index < 15 && |lines| >= 9 && forall r :: 0 <= r < |lines| ==> |lines[r]| == |lines|
  {
    lines[14 - index][8]
  }

  /** The codeword bits in walk order with the mask taken off. */
  function ReadBits(lines: seq<seq<Bit>>, mask: nat, cells: seq<Cell>): (bits: seq<Bit>)
    requires forall k :: 0 <= k < |cells| ==>
      0 <= cells[k].row < |lines| && 0 <= cells[k].col < |lines[cells[k].row]|
    ensures |bits| == |cells|
  {
    seq(|cells|, k requires 0 <= k < |cells| =>
      Masked(mask, cells[k].row, cells[k].col, lines[cells[k].row][cells[k].col]))
  }

  /** A reader that is given nothing but the modules. It takes the version from the
      size and the level and mask from the format modules next to the upper left
      finder, undoes the mask, walks the modules that are not reserved, and puts the
      blocks, the bytes and the segment back together. */
  function Decode(lines: seq<seq<Bit>>): Option<seq<bv8>> {
    var size := |lines|;
    if (size - 17) % 4 != 0 || !(21 <= size <= 97) || exists r :: 0 <= r < size && |lines[r]| != size then None
    else
      var version := (size - 17) / 4;
      var ecl := FormatModule(lines, 13);
      var mask := 4 * (1 - FormatModule(lines, 12)) + 2 * FormatModule(lines, 11) + (1 - FormatModule(lines, 10));
      FreeWalkInside(version);
      var bits := ReadBits(lines, mask, FreeWalk(version));
      var total := 8 * TotalCodewords(version);
      if |bits| < total then None
      else
        var codewords := BytesOf(bits[..total]);
        var data := Join(ReadRows(codewords, Sizes(LayoutOf(version, ecl))));
        Parse(data, CountBits(version))
  }

  lemma FreeWalkInside(version: nat)
    requires IsVersion(version)
    ensures Inside(FreeWalk(version), SizeOf(version))
  {
    hide FreeWalk, Reserved;
    FreeWalkCells(version);
    forall k | 0 <= k < |FreeWalk(version)|
      ensures OnGrid(SizeOf(version), FreeWalk(version)[k])
    {
      assert FreeWalk(version)[k] in FreeWalk(version);
    }
  }

  lemma UnmaskTwice(mask: nat, row: nat, col: nat, bit: Bit)
    ensures Masked(mask, row, col, Masked(mask, row, col, bit)) == bit
  {
    hide QrMasks.Inverts;
  }

  lemma ReadBitsOfSymbol(lines: seq<seq<Bit>>, version: nat, ecl: nat, mask: nat, bits: seq<Bit>)
    requires IsVersion(version) && ecl < 2 && mask < 8 && IsSymbol(lines, version, ecl, mask, bits)
    requires |bits| <= |FreeWalk(version)|
    ensures |lines| == SizeOf(version) && (forall r :: 0 <= r < |lines| ==> |lines[r]| == |lines|)
    ensures Inside(FreeWalk(version), SizeOf(version))
    ensures bits <= ReadBits(lines, mask, FreeWalk(version))
  {
    hide Reserved, InFormat, FormatDark, FormatBits, FunctionModule, Masked, FreeWalk;
    var read := ReadBits(lines, mask, FreeWalk(version));
    forall k | 0 <= k < |bits|
      ensures bits[k] == read[k]
    {
      var cell := FreeWalk(version)[k];
      assert OnGrid(SizeOf(version), cell);
      UnmaskTwice(mask, cell.row, cell.col, bits[k]);
    }
  }

  lemma FormatOfSymbol(lines: seq<seq<Bit>>, version: nat, ecl: nat, mask: nat, bits: seq<Bit>)
    requires IsVersion(version) && ecl < 2 && mask < 8 && IsSymbol(lines, version, ecl, mask, bits)
    ensures |lines| == SizeOf(version) && (forall r :: 0 <= r < |lines| ==> |lines[r]| == |lines|)
    ensures ecl == FormatModule(lines, 13)
    ensures mask == 4 * (1 - FormatModule(lines, 12)) + 2 * FormatModule(lines, 11) + (1 - FormatModule(lines, 10))
  {
    hide Reserved, FormatBits, FunctionModule, Masked, FreeWalk, BitOfFormat;
    var size := SizeOf(version);
    FormatBitsReadBack(ecl, mask);
    forall index: nat | 9 <= index < 15
      ensures FormatModule(lines, index) == BitOfFormat(FormatBits(ecl, mask), index)
    {
      var cell := Cell(14 - index, 8);
      assert cell == FormatCell(size, index, false);
      FormatIsReserved(version, cell);
      FormatIndexOfCell(size, index, false);
    }
  }

  lemma ReadCodewords(payload: seq<bv8>, version: nat, ecl: nat)
    requires IsVersion(version) && ecl < 2 && Fits(payload, version, ecl)
    ensures Parse(Join(ReadRows(Codewords(payload, version, ecl), Sizes(LayoutOf(version, ecl)))), CountBits(version))
         == Some(payload)
  {
    hide LayoutOf, Encoded, Parse, ReadRows, Join, Interleaved, Sizes, TotalCodewords, DataCodewords;
    var layout := LayoutOf(version, ecl);
    LayoutFacts(version, ecl);
    var data := Encoded(payload, CountBits(version), DataCodewords(layout));
    InterleavedReadsBack(data, layout, []);
    assert Interleaved(data, layout) + [] == Interleaved(data, layout);
    CountFits(|payload|, CountBits(version), DataCodewords(layout), version);
    ParseEncoded(payload, CountBits(version), DataCodewords(layout));
  }

  lemma CountFits(length: nat, countBits: nat, capacity: nat, version: nat)
    requires countBits == CountBits(version) && 4 + countBits + 8 * length <= 8 * capacity
    requires capacity < (if version <= 9 then 256 else 1000)
    ensures length < PowerOfTwo(countBits)
  {
    assert PowerOfTwo(8) == 256;
    PowerOfTwoGrows(8, 10);
    assert PowerOfTwo(10) == 4 * PowerOfTwo(8);
    PowerOfTwoGrows(10, 16);
  }

  /** Every symbol of a payload decodes to the payload, whatever the mask. */
  lemma DecodeSymbol(lines: seq<seq<Bit>>, payload: seq<bv8>, version: nat, ecl: nat, mask: nat)
    requires IsVersion(version) && ecl < 2 && mask < 8 && Fits(payload, version, ecl)
    requires IsSymbol(lines, version, ecl, mask, SymbolBits(payload, version, ecl))
    ensures Decode(lines) == Some(payload)
  {
    hide LayoutOf, Codewords, TotalCodewords, BytesToBits, Reserved, FunctionModule, IsSymbol, FreeWalk, Fits,
         BytesOf, Join, ReadRows, Parse, FormatModule, ReadBits;
    var bits := SymbolBits(payload, version, ecl);
    QrReserved.SymbolHoldsCodewords(version);
    ReadBitsOfSymbol(lines, version, ecl, mask, bits);
    FormatOfSymbol(lines, version, ecl, mask, bits);
    var total := 8 * TotalCodewords(version);
    var read := ReadBits(lines, mask, FreeWalk(version));
    assert read[..total] == bits[..total] == BytesToBits(Codewords(payload, version, ecl));
    BytesOfBytesToBits(Codewords(payload, version, ecl));
    ReadCodewords(payload, version, ecl);
  }

  // ---------------------------------------------------------------------------
  // Choosing a version

  /** The smallest version that fits, level M before level L. */
  ghost predicate IsFirstFit(payload: seq<bv8>, version: nat, ecl: nat)
    requires IsVersion(version)
  {
    && ecl < 2
    && Fits(payload, version, ecl)
    && (forall v: nat, e: nat :: 1 <= v < version && e < 2 ==> !Fits(payload, v, e))
    && (forall e: nat :: e < ecl ==> !Fits(payload, version, e))
  }

  /** The encoder for a compact pairing bundle: the symbol decodes to the bundle, and
      there is none exactly if no version holds it. */
  method PairingQr(t: Tables, bytes: seq<bv8>) returns (symbol: Option<seq<seq<Bit>>>)
    requires IsFieldTables(t)
    ensures symbol.Some? ==> Decode(symbol.value) == Some(bytes)
    ensures symbol.Some? <==> exists v: nat, e: nat :: 1 <= v <= 20 && e < 2 && Fits(bytes, v, e)
    ensures symbol.Some? ==> exists v: nat, e: nat, m: nat ::
      IsVersion(v) && e < 2 && m < 8 && IsFirstFit(bytes, v, e) && IsBestSymbol(symbol.value, v, e, m, SymbolBits(bytes, v, e), 8)
  {
    hide IsFieldTables, LayoutOf, Decode, IsBestSymbol, SymbolBits;
    for version: nat := 1 to 21
      invariant forall v: nat, e: nat :: 1 <= v < version && e < 2 ==> !Fits(bytes, v, e)
    {
      for ecl: nat := 0 to 2
        invariant forall e: nat :: e < ecl ==> !Fits(bytes, version, e)
      {
        var layout := LayoutOf(version, ecl);
        var needed := 4 + CountBits(version) + |bytes| * 8;
        if needed > DataCodewords(layout) * 8 { continue; }
        var best := BuildMatrix(t, bytes, version, ecl);
        ghost var mask: nat :| mask < 8 && IsBestSymbol(best, version, ecl, mask, SymbolBits(bytes, version, ecl), 8);
        BestIsSymbol(best, version, ecl, mask, SymbolBits(bytes, version, ecl));
        DecodeSymbol(best, bytes, version, ecl, mask);
        assert IsFirstFit(bytes, version, ecl);
        return Some(best);
      }
    }
    return None;
  }

  lemma BestIsSymbol(best: seq<seq<Bit>>, version: nat, ecl: nat, mask: nat, bits: seq<Bit>)
    requires IsVersion(version) && ecl < 2 && mask < 8 && IsBestSymbol(best, version, ecl, mask, bits, 8)
    ensures IsSymbol(best, version, ecl, mask, bits)
  {
    hide IsSymbol;
  }
}
