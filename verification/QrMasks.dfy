/** The eight masks: the rules the encoder computes, and the tiles they draw. */
module QrMasks {
  type Picture = seq<string>

  // One tile of each mask; # is a module it inverts.

  function Tile0(): (tile: Picture)
    ensures |tile| == 2 && forall row :: 0 <= row < 2 ==> |tile[row]| == 2
  {
    ["#.",
     ".#"]
  }

  function Tile1(): (tile: Picture)
    ensures |tile| == 2 && forall row :: 0 <= row < 2 ==> |tile[row]| == 1
  {
    ["#",
     "."]
  }

  function Tile2(): (tile: Picture)
    ensures |tile| == 1 && forall row :: 0 <= row < 1 ==> |tile[row]| == 3
  {
    ["#.."]
  }

  function Tile3(): (tile: Picture)
    ensures |tile| == 3 && forall row :: 0 <= row < 3 ==> |tile[row]| == 3
  {
    ["#..",
     "..#",
     ".#."]
  }

  function Tile4(): (tile: Picture)
    ensures |tile| == 4 && forall row :: 0 <= row < 4 ==> |tile[row]| == 6
  {
    ["###...",
     "###...",
     "...###",
     "...###"]
  }

  function Tile5(): (tile: Picture)
    ensures |tile| == 6 && forall row :: 0 <= row < 6 ==> |tile[row]| == 6
  {
    ["######",
     "#.....",
     "#..#..",
     "#.#.#.",
     "#..#..",
     "#....."]
  }

  function Tile6(): (tile: Picture)
    ensures |tile| == 6 && forall row :: 0 <= row < 6 ==> |tile[row]| == 6
  {
    ["######",
     "###...",
     "##.##.",
     "#.#.#.",
     "#.##.#",
     "#...##"]
  }

  function Tile7(): (tile: Picture)
    ensures |tile| == 6 && forall row :: 0 <= row < 6 ==> |tile[row]| == 6
  {
    ["#.#.#.",
     "...###",
     "#...##",
     ".#.#.#",
     "###...",
     ".###.."]
  }

  function MaskTile(mask: nat): Picture {
    if mask == 0 then Tile0() else if mask == 1 then Tile1() else if mask == 2 then Tile2() else if mask == 3 then Tile3()
    else if mask == 4 then Tile4() else if mask == 5 then Tile5() else if mask == 6 then Tile6() else Tile7()
  }

  /** Whether a mask inverts the module at a row and column: its tile repeats over the symbol
      from the upper left corner. */
  predicate Inverts(mask: nat, row: nat, col: nat) {
    var tile := MaskTile(mask);
    var line := tile[row % |tile|];
    line[col % |line|] == '#'
  }

  // ---------------------------------------------------------------------------
  // The rules

  predicate MaskBit(mask: nat, row: nat, col: nat) {
    if mask == 0 then (row + col) % 2 == 0
    else if mask == 1 then row % 2 == 0
    else if mask == 2 then col % 3 == 0
    else if mask == 3 then (row + col) % 3 == 0
    else if mask == 4 then (row / 2 + col / 3) % 2 == 0
    else if mask == 5 then (row * col) % 2 + (row * col) % 3 == 0
    else if mask == 6 then ((row * col) % 2 + (row * col) % 3) % 2 == 0
    else ((row + col) % 2 + (row * col) % 3) % 2 == 0
  }

  // The remainders of a product repeat with those of its factors.
  lemma ProductRepeats(row: nat, col: nat)
    ensures (row * col) % 2 == ((row % 6) * (col % 6)) % 2 && (row * col) % 3 == ((row % 6) * (col % 6)) % 3
  {
    var a, b, r, c := row / 6, col / 6, row % 6, col % 6;
    ProductOfSums(a, b, r, c);
    SixfoldVanishes(6 * a * b + a * c + b * r, r * c);
  }

  lemma ProductOfSums(a: nat, b: nat, r: nat, c: nat)
    ensures (6 * a + r) * (6 * b + c) == 6 * (6 * a * b + a * c + b * r) + r * c
  {}

  lemma SixfoldVanishes(n: nat, rest: nat)
    ensures (6 * n + rest) % 2 == rest % 2 && (6 * n + rest) % 3 == rest % 3
  {
    EvenVanishes(3 * n, rest);
    ThirdVanishes(2 * n, rest);
  }

  lemma EvenVanishes(n: nat, rest: nat)
    ensures (2 * n + rest) % 2 == rest % 2
  {}

  lemma ThirdVanishes(n: nat, rest: nat)
    ensures (3 * n + rest) % 3 == rest % 3
  {}

  lemma Lines5(c: nat)
    requires c < 6
    ensures true <==> Tile5()[0][c] == '#'
    ensures c % 2 + c % 3 == 0 <==> Tile5()[1][c] == '#'
    ensures (2 * c) % 2 + (2 * c) % 3 == 0 <==> Tile5()[2][c] == '#'
    ensures (3 * c) % 2 + (3 * c) % 3 == 0 <==> Tile5()[3][c] == '#'
    ensures (4 * c) % 2 + (4 * c) % 3 == 0 <==> Tile5()[4][c] == '#'
    ensures (5 * c) % 2 + (5 * c) % 3 == 0 <==> Tile5()[5][c] == '#'
  {}

  lemma Lines6(c: nat)
    requires c < 6
    ensures true <==> Tile6()[0][c] == '#'
    ensures (c % 2 + c % 3) % 2 == 0 <==> Tile6()[1][c] == '#'
    ensures ((2 * c) % 2 + (2 * c) % 3) % 2 == 0 <==> Tile6()[2][c] == '#'
    ensures ((3 * c) % 2 + (3 * c) % 3) % 2 == 0 <==> Tile6()[3][c] == '#'
    ensures ((4 * c) % 2 + (4 * c) % 3) % 2 == 0 <==> Tile6()[4][c] == '#'
    ensures ((5 * c) % 2 + (5 * c) % 3) % 2 == 0 <==> Tile6()[5][c] == '#'
  {}

  lemma Lines7(c: nat)
    requires c < 6
    ensures c % 2 == 0 <==> Tile7()[0][c] == '#'
    ensures ((1 + c) % 2 + c % 3) % 2 == 0 <==> Tile7()[1][c] == '#'
    ensures ((2 + c) % 2 + (2 * c) % 3) % 2 == 0 <==> Tile7()[2][c] == '#'
  {}

  lemma LowerLines7(c: nat)
    requires c < 6
    ensures ((3 + c) % 2 + (3 * c) % 3) % 2 == 0 <==> Tile7()[3][c] == '#'
    ensures ((4 + c) % 2 + (4 * c) % 3) % 2 == 0 <==> Tile7()[4][c] == '#'
    ensures ((5 + c) % 2 + (5 * c) % 3) % 2 == 0 <==> Tile7()[5][c] == '#'
  {}

  lemma Product5(r: nat, c: nat)
    requires r < 6 && c < 6
    ensures MaskBit(5, r, c) <==> Tile5()[r][c] == '#'
  {
    hide Tile5;
    Lines5(c);
    if r == 0 { assert r * c == 0; }
    else if r == 1 { assert r * c == c; }
    else if r == 2 { assert r * c == 2 * c; }
    else if r == 3 { assert r * c == 3 * c; }
    else if r == 4 { assert r * c == 4 * c; }
    else { assert r * c == 5 * c; }
  }

  lemma Product6(r: nat, c: nat)
    requires r < 6 && c < 6
    ensures MaskBit(6, r, c) <==> Tile6()[r][c] == '#'
  {
    hide Tile6;
    Lines6(c);
    if r == 0 { assert r * c == 0; }
    else if r == 1 { assert r * c == c; }
    else if r == 2 { assert r * c == 2 * c; }
    else if r == 3 { assert r * c == 3 * c; }
    else if r == 4 { assert r * c == 4 * c; }
    else { assert r * c == 5 * c; }
  }

  lemma Product7(r: nat, c: nat)
    requires r < 6 && c < 6
    ensures MaskBit(7, r, c) <==> Tile7()[r][c] == '#'
  {
    hide Tile7;
    Lines7(c);
    LowerLines7(c);
    if r == 0 { assert r * c == 0; }
    else if r == 1 { assert r * c == c; }
    else if r == 2 { assert r * c == 2 * c; }
    else if r == 3 { assert r * c == 3 * c; }
    else if r == 4 { assert r * c == 4 * c; }
    else { assert r * c == 5 * c; }
  }

  lemma RuleRepeats(mask: nat, row: nat, col: nat)
    requires 5 <= mask < 8
    ensures MaskBit(mask, row, col) <==> MaskBit(mask, row % 6, col % 6)
  {
    ProductRepeats(row, col);
    SumRepeats(row, col);
    var p, q := row * col, (row % 6) * (col % 6);
    assert p % 2 == q % 2 && p % 3 == q % 3;
  }

  lemma SumRepeats(row: nat, col: nat)
    ensures (row + col) % 2 == (row % 6 + col % 6) % 2
  {}

  lemma SumOfTwo(row: nat, col: nat)
    ensures (row + col) % 2 == 0 <==> row % 2 == col % 2
  {}

  lemma SumOfThree(row: nat, col: nat)
    ensures (row + col) % 3 == (row % 3 + col % 3) % 3
  {
    var a, b, r, c := row / 3, col / 3, row % 3, col % 3;
    assert row + col == 3 * (a + b) + (r + c);
  }

  lemma HalvesAndThirds(row: nat, col: nat)
    ensures (row / 2 + col / 3) % 2 == 0 <==> (row % 4 < 2 <==> col % 6 < 3)
  {
    SumOfTwo(row / 2, col / 3);
    Halves(row);
    Thirds(col);
  }

  lemma Halves(row: nat)
    ensures row / 2 % 2 == if row % 4 < 2 then 0 else 1
  {}

  lemma Thirds(col: nat)
    ensures col / 3 % 2 == if col % 6 < 3 then 0 else 1
  {}

  lemma TileRepeats(mask: nat, row: nat, col: nat)
    ensures mask == 0 ==> (Inverts(mask, row, col) <==> Tile0()[row % 2][col % 2] == '#')
    ensures mask == 1 ==> (Inverts(mask, row, col) <==> Tile1()[row % 2][0] == '#')
    ensures mask == 2 ==> (Inverts(mask, row, col) <==> Tile2()[0][col % 3] == '#')
    ensures mask == 3 ==> (Inverts(mask, row, col) <==> Tile3()[row % 3][col % 3] == '#')
    ensures mask == 4 ==> (Inverts(mask, row, col) <==> Tile4()[row % 4][col % 6] == '#')
    ensures mask == 5 ==> (Inverts(mask, row, col) <==> Tile5()[row % 6][col % 6] == '#')
    ensures mask == 6 ==> (Inverts(mask, row, col) <==> Tile6()[row % 6][col % 6] == '#')
    ensures mask == 7 ==> (Inverts(mask, row, col) <==> Tile7()[row % 6][col % 6] == '#')
  {
    hide Tile0, Tile1, Tile2, Tile3, Tile4, Tile5, Tile6, Tile7;
  }

  lemma ProductTiles(mask: nat, row: nat, col: nat)
    requires 5 <= mask < 8
    ensures MaskBit(mask, row, col) <==> Inverts(mask, row, col)
  {
    hide Tile5, Tile6, Tile7, MaskBit, Inverts;
    RuleRepeats(mask, row, col);
    TileRepeats(mask, row, col);
    if mask == 5 { Product5(row % 6, col % 6); } else if mask == 6 { Product6(row % 6, col % 6); } else { Product7(row % 6, col % 6); }
  }

  lemma RuleOfSum(mask: nat, row: nat, col: nat)
    requires mask < 5
    ensures MaskBit(mask, row, col) <==>
      if mask == 0 then (row + col) % 2 == 0 else if mask == 1 then row % 2 == 0 else if mask == 2 then col % 3 == 0
      else if mask == 3 then (row + col) % 3 == 0 else (row / 2 + col / 3) % 2 == 0
  {}

  lemma SumTiles(mask: nat, row: nat, col: nat)
    requires mask < 5
    ensures MaskBit(mask, row, col) <==> Inverts(mask, row, col)
  {
    hide Tile0, Tile1, Tile2, Tile3, Tile4, Inverts, MaskBit;
    TileRepeats(mask, row, col);
    RuleOfSum(mask, row, col);
    if mask < 2 {
      LinesOfTwo(row % 2, col % 2);
      if mask == 0 { SumOfTwo(row, col); }
    } else if mask == 2 {
      LinesOfThree(0, col % 3);
    } else if mask == 3 {
      LinesOfThree(row % 3, col % 3);
      SumOfThree(row, col);
    } else {
      LinesOfFour(row % 4, col % 6);
      HalvesAndThirds(row, col);
    }
  }

  lemma LinesOfTwo(r: nat, c: nat)
    requires r < 2 && c < 2
    ensures Tile0()[r][c] == '#' <==> r == c
    ensures Tile1()[r][0] == '#' <==> r == 0
  {}

  lemma LinesOfThree(r: nat, c: nat)
    requires r < 3 && c < 3
    ensures Tile2()[0][c] == '#' <==> c == 0
    ensures Tile3()[r][c] == '#' <==> (r + c) % 3 == 0
  {}

  lemma LinesOfFour(r: nat, c: nat)
    requires r < 4 && c < 6
    ensures Tile4()[r][c] == '#' <==> (r < 2 <==> c < 3)
  {}

  /** The eight rules draw the eight tiles. */
  lemma MaskIsTile(mask: nat, row: nat, col: nat)
    requires mask < 8
    ensures MaskBit(mask, row, col) <==> Inverts(mask, row, col)
  {
    hide MaskBit, Inverts;
    if mask < 5 {
      SumTiles(mask, row, col);
    } else {
      ProductTiles(mask, row, col);
    }
  }
}
