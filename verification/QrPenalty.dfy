/** The penalty score of a masked symbol: what its scans add up to. */
module QrPenalty {
  import opened BitStream

  type Line = seq<Bit>

  ghost predicate IsSquare(grid: seq<Line>) {
    forall row :: 0 <= row < |grid| ==> |grid[row]| == |grid|
  }

  function ColumnOf(grid: seq<Line>, col: nat): (line: Line)
    requires IsSquare(grid) && col < |grid|
    ensures |line| == |grid|
  {
    seq(|grid|, row requires 0 <= row < |grid| => grid[row][col])
  }

  // ---------------------------------------------------------------------------
  // Maximal runs

  ghost predicate IsRun(line: Line, start: nat, end: nat) {
    start < end <= |line| && forall k :: start <= k < end ==> line[k] == line[start]
  }

  ghost predicate StartsRun(line: Line, start: nat) {
    start < |line| && (start == 0 || line[start - 1] != line[start])
  }

  /** The cells from start to end are equal and the run cannot be extended. */
  ghost predicate IsMaximalRun(line: Line, start: nat, end: nat) {
    && IsRun(line, start, end)
    && StartsRun(line, start)
    && (end == |line| || line[end] != line[start])
  }

  ghost function RunEnd(line: Line, start: nat): (end: nat)
    requires start < |line|
    ensures IsRun(line, start, end)
    ensures end == |line| || line[end] != line[start]
    decreases |line| - start
  {
    if start + 1 < |line| && line[start + 1] == line[start] then RunEnd(line, start + 1) else start + 1
  }

  /** Five or more equal modules in a row cost their number less two. */
  ghost function RunCost(length: nat): nat {
    if length >= 5 then length - 2 else 0
  }

  ghost function CostAt(line: Line, start: nat): nat
    requires start < |line|
  {
    if StartsRun(line, start) then RunCost(RunEnd(line, start) - start) else 0
  }

  /** The cost of the runs that start before the given position. */
  ghost function RunCosts(line: Line, upTo: nat): nat
    requires upTo <= |line|
  {
    if upTo == 0 then 0 else RunCosts(line, upTo - 1) + CostAt(line, upTo - 1)
  }

  /** The positions that are charged are the starts of maximal runs, each charged by
      the length of its run. */
  lemma ChargesMaximalRuns(line: Line, start: nat)
    requires start < |line|
    ensures StartsRun(line, start) ==> IsMaximalRun(line, start, RunEnd(line, start))
    ensures forall end: nat :: IsMaximalRun(line, start, end) ==>
      CostAt(line, start) == (if end - start < 5 then 0 else 3 + (end - start - 5))
    ensures (forall end: nat :: !IsMaximalRun(line, start, end)) ==> CostAt(line, start) == 0
  {
    var e := RunEnd(line, start);
    if StartsRun(line, start) { assert IsMaximalRun(line, start, e); }
    forall end: nat | IsMaximalRun(line, start, end)
      ensures end == e
    {}
  }

  lemma {:induction false} RunCostsInside(line: Line, start: nat, end: nat)
    requires IsRun(line, start, end)
    ensures RunCosts(line, end) == RunCosts(line, start) + CostAt(line, start)
    decreases end
  {
    if start + 1 < end {
      RunCostsInside(line, start, end - 1);
      assert line[end - 2] == line[end - 1];
    }
  }

  /** One scan along a line, as for every row and every column. */
  method ScanRuns(line: Line) returns (score: nat)
    requires line != []
    ensures score == RunCosts(line, |line|)
  {
    score := 0;
    var run := 1;
    for at := 1 to |line| + 1
      invariant 1 <= run <= at || (at == |line| + 1 && run == 1)
      invariant at <= |line| ==> IsRun(line, at - run, at) && StartsRun(line, at - run)
      invariant at <= |line| ==> score == RunCosts(line, at - run)
      invariant at == |line| + 1 ==> score == RunCosts(line, |line|)
    {
      if at < |line| && line[at] == line[at - 1] {
        run := run + 1;
        continue;
      }
      ChargesMaximalRuns(line, at - run);
      assert IsMaximalRun(line, at - run, at);
      RunCostsInside(line, at - run, at);
      if run >= 5 { score := score + 3 + (run - 5); }
      run := 1;
    }
  }

  // ---------------------------------------------------------------------------
  // The other features

  predicate IsBlock(grid: seq<Line>, row: nat, col: nat)
    requires IsSquare(grid) && row + 1 < |grid| && col + 1 < |grid|
  {
    grid[row][col] == grid[row][col + 1] == grid[row + 1][col] == grid[row + 1][col + 1]
  }

  ghost function BlocksInRow(grid: seq<Line>, row: nat, upTo: nat): nat
    requires IsSquare(grid) && row + 1 < |grid| && upTo < |grid|
  {
    if upTo == 0 then 0
    else BlocksInRow(grid, row, upTo - 1) + (if IsBlock(grid, row, upTo - 1) then 1 else 0)
  }

  /** Two by two blocks of one colour whose upper row is before the given one. */
  ghost function BlocksAbove(grid: seq<Line>, upTo: nat): nat
    requires IsSquare(grid) && (upTo == 0 || upTo < |grid|)
  {
    if upTo == 0 then 0
    else BlocksAbove(grid, upTo - 1) + BlocksInRow(grid, upTo - 1, |grid| - 1)
  }

  const FINDER: Line := [1, 0, 1, 1, 1, 0, 1]
  const LIGHT: Line := [0, 0, 0, 0]

  predicate Matches(line: Line, start: nat, pattern: Line) {
    start + |pattern| <= |line| && line[start..start + |pattern|] == pattern
  }

  /** A finder-like pattern with four light modules after it, or before it. */
  function FinderHits(line: Line, start: nat): nat {
    (if Matches(line, start, FINDER + LIGHT) then 1 else 0)
    + (if Matches(line, start, LIGHT + FINDER) then 1 else 0)
  }

  ghost function FindersBefore(line: Line, upTo: nat): nat {
    if upTo == 0 then 0 else FindersBefore(line, upTo - 1) + FinderHits(line, upTo - 1)
  }

  ghost function Finders(line: Line): nat {
    if |line| < 11 then 0 else FindersBefore(line, |line| - 10)
  }

  method CountFinder(line: Line) returns (count: nat)
    ensures count == Finders(line)
  {
    count := 0;
    var index := 0;
    while index <= |line| - 11
      invariant index == 0 || index <= |line| - 10
      invariant count == FindersBefore(line, index)
    {
      FinderHitsByModule(line, index);
      if HasFinder(line, index)
         && line[index + 7] == 0 && line[index + 8] == 0 && line[index + 9] == 0 && line[index + 10] == 0 {
        count := count + 1;
      }
      if line[index] == 0 && line[index + 1] == 0 && line[index + 2] == 0 && line[index + 3] == 0
         && HasFinder(line, index + 4) {
        count := count + 1;
      }
      index := index + 1;
    }
  }

  predicate HasFinder(line: Line, start: nat)
    requires start + 7 <= |line|
  {
    forall k :: 0 <= k < 7 ==> line[start + k] == FINDER[k]
  }

  lemma MatchesConcat(line: Line, start: nat, a: Line, b: Line)
    ensures Matches(line, start, a + b) <==> Matches(line, start, a) && Matches(line, start + |a|, b)
  {
    if start + |a| + |b| <= |line| {
      assert line[start..start + |a + b|] == line[start..start + |a|] + line[start + |a|..start + |a| + |b|];
      if Matches(line, start, a + b) {
        assert line[start..start + |a|] == (a + b)[..|a|];
        assert line[start + |a|..start + |a| + |b|] == (a + b)[|a|..];
      }
    }
  }

  lemma MatchesModules(line: Line, start: nat)
    requires start + 7 <= |line|
    ensures Matches(line, start, FINDER) <==> HasFinder(line, start)
    ensures Matches(line, start, LIGHT)
       <==> line[start] == 0 && line[start + 1] == 0 && line[start + 2] == 0 && line[start + 3] == 0
  {
    if Matches(line, start, FINDER) {
      forall k | 0 <= k < 7
        ensures line[start + k] == FINDER[k]
      {
        assert line[start..start + 7][k] == FINDER[k];
      }
    }
    var part := line[start..start + 4];
    assert part[0] == line[start] && part[1] == line[start + 1] && part[2] == line[start + 2] && part[3] == line[start + 3];
  }

  lemma LightModules(line: Line, start: nat)
    requires start + 4 <= |line|
    ensures Matches(line, start, LIGHT)
       <==> line[start] == 0 && line[start + 1] == 0 && line[start + 2] == 0 && line[start + 3] == 0
  {
    var part := line[start..start + 4];
    assert part[0] == line[start] && part[1] == line[start + 1] && part[2] == line[start + 2] && part[3] == line[start + 3];
  }

  lemma FinderHitsByModule(line: Line, start: nat)
    requires start + 11 <= |line|
    ensures Matches(line, start, FINDER + LIGHT)
       <==> HasFinder(line, start) && line[start + 7] == 0 && line[start + 8] == 0
            && line[start + 9] == 0 && line[start + 10] == 0
    ensures Matches(line, start, LIGHT + FINDER)
       <==> line[start] == 0 && line[start + 1] == 0 && line[start + 2] == 0 && line[start + 3] == 0
            && HasFinder(line, start + 4)
  {
    MatchesConcat(line, start, FINDER, LIGHT);
    MatchesConcat(line, start, LIGHT, FINDER);
    MatchesModules(line, start);
    MatchesModules(line, start + 4);
    LightModules(line, start + 7);
  }

  ghost function DarkIn(line: Line): nat {
    if line == [] then 0 else DarkIn(line[..|line| - 1]) + line[|line| - 1]
  }

  /** By how many percent the dark share is off one half. */
  function OffBalance(dark: nat, modules: nat): real
    requires modules > 0
  {
    var percent := (dark * 100) as real / modules as real;
    if percent >= 50.0 then percent - 50.0 else 50.0 - percent
  }

  /** Ten for every whole five percent by which the dark share of the modules is off
      one half. */
  function BalanceCost(dark: nat, size: nat): nat
    requires size > 0
  {
    10 * (OffBalance(dark, size * size) / 5.0).Floor
  }

  // ---------------------------------------------------------------------------
  // The whole score

  ghost function RowRuns(grid: seq<Line>, upTo: nat): nat
    requires upTo <= |grid|
  {
    if upTo == 0 then 0 else RowRuns(grid, upTo - 1) + RunCosts(grid[upTo - 1], |grid[upTo - 1]|)
  }

  ghost function ColumnRuns(grid: seq<Line>, upTo: nat): nat
    requires IsSquare(grid) && upTo <= |grid|
  {
    if upTo == 0 then 0 else ColumnRuns(grid, upTo - 1) + RunCosts(ColumnOf(grid, upTo - 1), |grid|)
  }

  ghost function RowFinders(grid: seq<Line>, upTo: nat): nat
    requires upTo <= |grid|
  {
    if upTo == 0 then 0 else RowFinders(grid, upTo - 1) + Finders(grid[upTo - 1])
  }

  ghost function ColumnFinders(grid: seq<Line>, upTo: nat): nat
    requires IsSquare(grid) && upTo <= |grid|
  {
    if upTo == 0 then 0 else ColumnFinders(grid, upTo - 1) + Finders(ColumnOf(grid, upTo - 1))
  }

  ghost function Dark(grid: seq<Line>, upTo: nat): nat
    requires upTo <= |grid|
  {
    if upTo == 0 then 0 else Dark(grid, upTo - 1) + DarkIn(grid[upTo - 1])
  }

  /** Runs in rows and columns, blocks, finder-like patterns and colour balance. */
  ghost function PenaltyOf(grid: seq<Line>): nat
    requires IsSquare(grid) && grid != []
  {
    var size := |grid|;
    RowRuns(grid, size) + ColumnRuns(grid, size) + 3 * BlocksAbove(grid, size - 1)
    + 40 * RowFinders(grid, size) + 40 * ColumnFinders(grid, size) + BalanceCost(Dark(grid, size), size)
  }

  method Penalty(grid: seq<Line>) returns (score: nat)
    requires IsSquare(grid) && grid != []
    ensures score == PenaltyOf(grid)
  {
    hide RunCosts, Finders, BalanceCost;
    var size := |grid|;
    score := 0;
    for row := 0 to size
      invariant score == RowRuns(grid, row)
    {
      var runs := ScanRuns(grid[row]);
      score := score + runs;
    }
    ghost var rowRuns := score;
    for col := 0 to size
      invariant score == rowRuns + ColumnRuns(grid, col)
    {
      var runs := ScanRuns(ColumnOf(grid, col));
      score := score + runs;
    }
    ghost var runs := score;
    for row := 0 to size - 1
      invariant score == runs + 3 * BlocksAbove(grid, row)
    {
      for col := 0 to size - 1
        invariant score == runs + 3 * BlocksAbove(grid, row) + 3 * BlocksInRow(grid, row, col)
      {
        var value := grid[row][col];
        if value == grid[row][col + 1] && value == grid[row + 1][col] && value == grid[row + 1][col + 1] {
          score := score + 3;
        }
      }
    }
    ghost var blocks := score;
    for row := 0 to size
      invariant score == blocks + 40 * RowFinders(grid, row)
    {
      var count := CountFinder(grid[row]);
      score := score + count * 40;
    }
    ghost var rowFinders := score;
    for col := 0 to size
      invariant score == rowFinders + 40 * ColumnFinders(grid, col)
    {
      var count := CountFinder(ColumnOf(grid, col));
      score := score + count * 40;
    }
    var dark := CountDark(grid);
    score := score + BalanceCost(dark, size);
  }

  method CountDark(grid: seq<Line>) returns (dark: nat)
    requires IsSquare(grid)
    ensures dark == Dark(grid, |grid|)
  {
    dark := 0;
    for row := 0 to |grid|
      invariant dark == Dark(grid, row)
    {
      for col := 0 to |grid|
        invariant dark == Dark(grid, row) + DarkIn(grid[row][..col])
      {
        assert grid[row][..col + 1][..col] == grid[row][..col];
        dark := dark + grid[row][col];
      }
      assert grid[row][..|grid|] == grid[row];
    }
  }

  // ---------------------------------------------------------------------------
  // The score by the places of the features

  ghost function BlocksOfRow(grid: seq<Line>, row: nat, upTo: nat): (places: set<(nat, nat)>)
    requires IsSquare(grid) && row + 1 < |grid| && upTo < |grid|
  {
    set col: nat | col < upTo && IsBlock(grid, row, col) :: (row, col)
  }

  /** The upper left modules of the two by two blocks of one colour. */
  ghost function BlockPlaces(grid: seq<Line>, upTo: nat): (places: set<(nat, nat)>)
    requires IsSquare(grid) && (upTo == 0 || upTo < |grid|)
  {
    set row: nat, col: nat | row < upTo && col < |grid| - 1 && IsBlock(grid, row, col) :: (row, col)
  }

  lemma {:induction false} BlocksOfRowCount(grid: seq<Line>, row: nat, upTo: nat)
    requires IsSquare(grid) && row + 1 < |grid| && upTo < |grid|
    ensures |BlocksOfRow(grid, row, upTo)| == BlocksInRow(grid, row, upTo)
  {
    hide IsBlock;
    if upTo == 0 {
      assert BlocksOfRow(grid, row, 0) == {};
    } else {
      BlocksOfRowCount(grid, row, upTo - 1);
      var earlier := BlocksOfRow(grid, row, upTo - 1);
      assert (row, upTo - 1) !in earlier;
      assert BlocksOfRow(grid, row, upTo) == earlier + (if IsBlock(grid, row, upTo - 1) then {(row, upTo - 1)} else {});
    }
  }

  lemma {:induction false} BlockPlacesCount(grid: seq<Line>, upTo: nat)
    requires IsSquare(grid) && (upTo == 0 || upTo < |grid|)
    ensures |BlockPlaces(grid, upTo)| == BlocksAbove(grid, upTo)
  {
    hide IsBlock;
    if upTo == 0 {
      assert BlockPlaces(grid, 0) == {};
    } else {
      var row := upTo - 1;
      BlockPlacesCount(grid, row);
      BlocksOfRowCount(grid, row, |grid| - 1);
      var earlier, last := BlockPlaces(grid, row), BlocksOfRow(grid, row, |grid| - 1);
      assert BlockPlaces(grid, upTo) == earlier + last;
      assert earlier !! last;
    }
  }

  datatype FinderPlace = FinderPlace(line: nat, start: nat, lightAfter: bool)

  predicate IsHit(line: Line, start: nat, lightAfter: bool) {
    Matches(line, start, if lightAfter then FINDER + LIGHT else LIGHT + FINDER)
  }

  /** Where a finder-like pattern starts, with its four light modules after it or before. */
  ghost function FinderPlacesIn(line: Line, index: nat, upTo: nat): (places: set<FinderPlace>) {
    set start: nat, lightAfter: bool | start < upTo && IsHit(line, start, lightAfter) :: FinderPlace(index, start, lightAfter)
  }

  ghost function FinderPlaces(lines: seq<Line>, upTo: nat): (places: set<FinderPlace>)
    requires upTo <= |lines|
  {
    if upTo == 0 then {} else FinderPlaces(lines, upTo - 1) + FinderPlacesIn(lines[upTo - 1], upTo - 1, |lines[upTo - 1]|)
  }

  lemma {:induction false} FinderPlacesInCount(line: Line, index: nat, upTo: nat)
    ensures |FinderPlacesIn(line, index, upTo)| == FindersBefore(line, upTo)
  {
    hide IsHit, FinderHits, PlacesAt;
    if upTo == 0 {
      assert FinderPlacesIn(line, index, 0) == {};
    } else {
      FinderPlacesInCount(line, index, upTo - 1);
      var earlier := FinderPlacesIn(line, index, upTo - 1);
      var here := PlacesAt(line, index, upTo - 1);
      assert earlier !! here;
      PlacesNext(line, index, upTo);
    }
  }

  ghost function PlacesAt(line: Line, index: nat, start: nat): (places: set<FinderPlace>)
    ensures |places| == FinderHits(line, start)
    ensures forall place :: place in places <==> place.line == index && place.start == start && IsHit(line, start, place.lightAfter)
  {
    HitsAt(line, start);
    (if IsHit(line, start, true) then {FinderPlace(index, start, true)} else {})
    + (if IsHit(line, start, false) then {FinderPlace(index, start, false)} else {})
  }

  lemma PlacesNext(line: Line, index: nat, upTo: nat)
    requires upTo > 0
    ensures FinderPlacesIn(line, index, upTo) == FinderPlacesIn(line, index, upTo - 1) + PlacesAt(line, index, upTo - 1)
  {
    hide IsHit, PlacesAt;
  }

  lemma HitsAt(line: Line, start: nat)
    ensures FinderHits(line, start) == (if IsHit(line, start, true) then 1 else 0) + (if IsHit(line, start, false) then 1 else 0)
  {}

  // No pattern of eleven modules starts in the last ten.
  lemma {:induction false} NoneAtTheEnd(line: Line, upTo: nat)
    requires upTo <= |line|
    ensures FindersBefore(line, upTo) == if upTo + 10 <= |line| then FindersBefore(line, upTo)
                                         else if |line| < 11 then 0 else FindersBefore(line, |line| - 10)
  {
    if upTo > 0 && upTo + 10 > |line| {
      NoneAtTheEnd(line, upTo - 1);
      TooLate(line, upTo - 1);
    }
  }

  lemma TooLate(line: Line, start: nat)
    requires start + 11 > |line|
    ensures FinderHits(line, start) == 0
  {
    assert |FINDER + LIGHT| == 11 && |LIGHT + FINDER| == 11;
  }

  lemma {:induction false} FinderPlacesCount(lines: seq<Line>, upTo: nat)
    requires upTo <= |lines|
    ensures |FinderPlaces(lines, upTo)| == RowFinders(lines, upTo)
    ensures forall place :: place in FinderPlaces(lines, upTo) ==> place.line < upTo
  {
    hide Finders, FindersBefore, FinderPlacesIn;
    if upTo > 0 {
      var line := lines[upTo - 1];
      FinderPlacesCount(lines, upTo - 1);
      FinderPlacesInCount(line, upTo - 1, |line|);
      AllFinders(line);
      PlacesOfLine(line, upTo - 1, |line|);
    }
  }

  lemma AllFinders(line: Line)
    ensures Finders(line) == FindersBefore(line, |line|)
  {
    NoneAtTheEnd(line, |line|);
    if |line| < 11 && line != [] { NoneAtTheEnd(line, |line| - 1); }
  }

  lemma PlacesOfLine(line: Line, index: nat, upTo: nat)
    ensures forall place :: place in FinderPlacesIn(line, index, upTo) ==> place.line == index
  {}

  ghost function Columns(grid: seq<Line>): (lines: seq<Line>)
    requires IsSquare(grid)
    ensures |lines| == |grid|
  {
    seq(|grid|, col requires 0 <= col < |grid| => ColumnOf(grid, col))
  }

  lemma {:induction false} ColumnsAreRows(grid: seq<Line>, upTo: nat)
    requires IsSquare(grid) && upTo <= |grid|
    ensures ColumnFinders(grid, upTo) == RowFinders(Columns(grid), upTo)
    ensures ColumnRuns(grid, upTo) == RowRuns(Columns(grid), upTo)
  {
    hide Finders, RunCosts, ColumnOf;
    if upTo > 0 { ColumnsAreRows(grid, upTo - 1); }
  }

  /** The steps of five percent by which the dark share is off one half. */
  ghost predicate IsOffBy(steps: nat, dark: nat, modules: nat) {
    var off := if 2 * dark >= modules then 20 * dark - 10 * modules else 10 * modules - 20 * dark;
    steps * modules <= off < (steps + 1) * modules
  }

  lemma BalanceIsSteps(dark: nat, size: nat) returns (steps: nat)
    requires size > 0
    ensures BalanceCost(dark, size) == 10 * steps && IsOffBy(steps, dark, size * size)
  {
    hide OffBalance;
    steps := OffBalanceSteps(dark, size * size);
  }

  lemma OffBalanceSteps(dark: nat, modules: nat) returns (steps: nat)
    requires modules > 0
    ensures steps == (OffBalance(dark, modules) / 5.0).Floor && IsOffBy(steps, dark, modules)
  {
    hide IsOffBy, OffBalance;
    var off := OffBalance(dark, modules);
    OffBalanceTimes(dark, modules);
    steps := (off / 5.0).Floor;
    FloorOfFifth(off, steps);
    TimesModules(off, steps, modules);
    StepsInIntegers(dark, modules, steps, off);
  }

  lemma OffBalanceTimes(dark: nat, modules: nat)
    requires modules > 0
    ensures var off, share := OffBalance(dark, modules), (dark * 100) as real;
      && off >= 0.0
      && off * modules as real == if share >= 50.0 * modules as real then share - 50.0 * modules as real else 50.0 * modules as real - share
  {
    var share, m := (dark * 100) as real, modules as real;
    PartOfWhole(share, m);
    OffTimes(share / m, OffBalance(dark, modules), m, share);
  }

  lemma PartOfWhole(share: real, m: real)
    requires m > 0.0
    ensures share / m * m == share
  {}

  lemma FloorOfFifth(off: real, steps: nat)
    requires off >= 0.0 && steps == (off / 5.0).Floor
    ensures 5.0 * steps as real <= off < 5.0 * (steps + 1) as real
  {}

  lemma StepsInIntegers(dark: nat, modules: nat, steps: nat, off: real)
    requires 5.0 * (steps * modules) as real <= off * modules as real < 5.0 * ((steps + 1) * modules) as real
    requires var share := (dark * 100) as real;
      off * modules as real == if share >= 50.0 * modules as real then share - 50.0 * modules as real else 50.0 * modules as real - share
    ensures IsOffBy(steps, dark, modules)
  {
    var low, high, weighted := steps * modules, (steps + 1) * modules, off * modules as real;
    assert 5.0 * low as real <= weighted < 5.0 * high as real;
    assert (dark * 100) as real == 100.0 * dark as real;
  }

  lemma OffTimes(percent: real, off: real, modules: real, share: real)
    requires modules > 0.0 && percent * modules == share && off == if percent >= 50.0 then percent - 50.0 else 50.0 - percent
    ensures off >= 0.0
    ensures off * modules == if share >= 50.0 * modules then share - 50.0 * modules else 50.0 * modules - share
  {
    if percent >= 50.0 {
      assert (percent - 50.0) * modules == share - 50.0 * modules;
    } else {
      assert (50.0 - percent) * modules == 50.0 * modules - share;
    }
  }

  lemma TimesModules(off: real, steps: nat, modules: nat)
    requires modules > 0 && 5.0 * steps as real <= off < 5.0 * (steps + 1) as real
    ensures 5.0 * (steps * modules) as real <= off * modules as real < 5.0 * ((steps + 1) * modules) as real
  {
    var m, n := modules as real, steps as real;
    assert (steps * modules) as real == n * m;
    assert ((steps + 1) * modules) as real == (n + 1.0) * m;
  }

  /** What the score counts: three for each block, forty for each finder-like pattern in a
      row or a column, and ten for each step off balance, besides the runs. */
  lemma PenaltyByFeatures(grid: seq<Line>) returns (steps: nat)
    requires IsSquare(grid) && grid != []
    ensures var size := |grid|;
      && IsOffBy(steps, Dark(grid, size), size * size)
      && PenaltyOf(grid) == RowRuns(grid, size) + RowRuns(Columns(grid), size)
           + 3 * |BlockPlaces(grid, size - 1)|
           + 40 * (|FinderPlaces(grid, size)| + |FinderPlaces(Columns(grid), size)|)
           + 10 * steps
  {
    hide RowRuns, RowFinders, ColumnFinders, ColumnRuns, BlocksAbove, BalanceCost, BlockPlaces, FinderPlaces, IsOffBy, Columns;
    var size := |grid|;
    steps := BalanceIsSteps(Dark(grid, size), size);
    BlockPlacesCount(grid, size - 1);
    FinderPlacesCount(grid, size);
    FinderPlacesCount(Columns(grid), size);
    ColumnsAreRows(grid, size);
  }
}
