/** What adding mounts establishes, and exactly when. */
module ColimaMountsKept {
  import opened Common
  import opened GoText
  import opened ColimaMounts
  import Text
  import Paths

  // ---------------------------------------------------------------------------
  // Coverage

  /** The elements of the directory a location stands for. */
  function Target(location: string, env: Environment): seq<string> {
    Paths.Parts(NormalizeLocation(location, env))
  }

  lemma NormalizedIsRooted(location: string, env: Environment)
    requires Paths.IsRooted(env.directory)
    ensures var n := NormalizeLocation(location, env); Paths.IsRooted(n) && Paths.Clean(n) == n
  {
    hide Paths.Clean, Paths.Abs, TrimSpace, Expand;
    var value := Expand(TrimQuotesRight(TrimQuotesLeft(TrimSpace(location))), env);
    Paths.AbsIsRooted(value, env.directory);
    Paths.CleanTwice(Paths.Abs(value, env.directory));
  }

  /** A mount covers a path exactly when its directory is the path's or above it. */
  lemma CoversIffAbove(mount: string, path: string, env: Environment)
    requires Paths.IsRooted(env.directory)
    ensures MountCovers(mount, path, env) <==> Target(mount, env) <= Target(path, env)
  {
    hide NormalizeLocation, Paths.IsInside, Paths.Rel, Paths.Parts;
    NormalizedIsRooted(mount, env);
    NormalizedIsRooted(path, env);
    Paths.InsideIffPrefix(NormalizeLocation(mount, env), NormalizeLocation(path, env));
  }

  /** The entry written for a path, as it is read back, covers a required path. */
  predicate AddsCover(added: string, path: string, env: Environment) {
    MountCovers(NormalizeLocation(Resolve(added, env), env), Resolve(path, env), env)
  }

  /** A rooted path that can be written on a line. */
  predicate Writes(path: string) {
    Paths.IsRooted(path) && '\n' !in Paths.Clean(path)
  }

  lemma ResolveOfRooted(path: string, env: Environment)
    requires Paths.IsRooted(path)
    ensures Resolve(path, env) == Paths.Clean(path) && Paths.IsRooted(Paths.Clean(path))
    ensures Paths.Clean(Paths.Clean(path)) == Paths.Clean(path)
  {
    hide Paths.Clean;
    Paths.CleanTwice(path);
  }

  lemma QuotesKeep(s: string)
    requires s != "" && !IsQuote(s[0]) && !IsQuote(s[|s| - 1])
    ensures TrimQuotesRight(TrimQuotesLeft(s)) == s
  {}

  /** The entry of a path that does not end in a quote or white space covers it. It may not
      when taking off quotes uncovers white space. */
  lemma PlainCoversItself(path: string, env: Environment)
    requires Paths.IsRooted(path) && Paths.IsRooted(env.directory)
    requires var c := Paths.Clean(path); c != "" && !IsSpace(c[|c| - 1]) && !IsQuote(c[|c| - 1])
    ensures AddsCover(path, path, env)
  {
    hide Paths.Clean, TrimSpace, TrimQuotesLeft, TrimQuotesRight, MountCovers, Paths.Parts;
    ResolveOfRooted(path, env);
    var c := Paths.Clean(path);
    SlashIsInk();
    TrimOfTrimmed(c);
    QuotesKeep(c);
    assert Expand(c, env) == c;
    assert NormalizeLocation(c, env) == c;
    CoversIffAbove(c, c, env);
  }

  lemma SlashIsInk()
    ensures !IsSpace('/') && !IsQuote('/')
  {}

  // ---------------------------------------------------------------------------
  // Reading written lines

  lemma LocationLine(path: string, env: Environment)
    requires Paths.IsRooted(path)
    ensures var line := "  - location: " + path;
      IsLocation(line) && LocationOf(line, env) == NormalizeLocation(path, env) && !EndsBlock(line)
  {
    hide TrimSpace, NormalizeLocation;
    var before, after := TrimFacts(path);
    SlashIsInk();
    var q := TrimSpace(path);
    InkStart(path, before, q, after);
    var line, trimmed := "  - location: " + path, "- location: " + q;
    assert line == "  " + trimmed + after;
    LocationText(q);
    TrimPadded("  ", trimmed, after);
    TrimPadded(" ", q, "");
    TrimTwice(path);
    SameNormal(path, q, env);
  }

  lemma InkStart(s: string, before: string, q: string, after: string)
    requires s == before + q + after && AllSpace(before) && AllSpace(after) && s != "" && !IsSpace(s[0])
    ensures before == "" && q != "" && q[0] == s[0] && s == q + after
  {
    assert forall i :: 0 <= i < |before| ==> s[i] == before[i];
    assert forall i :: 0 <= i < |after| ==> s[|before| + |q| + i] == after[i];
  }

  lemma LocationText(q: string)
    requires q != "" && IsTrimmed(q)
    ensures var trimmed := "- location: " + q;
      IsTrimmed(trimmed) && LOCATION <= trimmed && trimmed[|LOCATION|..] == " " + q + "" && !("#" <= trimmed)
    ensures AllSpace("  ") && AllSpace(" ") && AllSpace("")
  {
    var trimmed := "- location: " + q;
    assert trimmed == LOCATION + (" " + q);
    assert trimmed[|trimmed| - 1] == q[|q| - 1];
  }

  lemma SameNormal(path: string, q: string, env: Environment)
    requires TrimSpace(path) == TrimSpace(q)
    ensures NormalizeLocation(path, env) == NormalizeLocation(q, env)
  {}

  const WRITABLE_LINE := "    writable: true"

  lemma WritableLine()
    ensures !IsLocation(WRITABLE_LINE) && IsWritable(WRITABLE_LINE) && WritableOf(WRITABLE_LINE) && !EndsBlock(WRITABLE_LINE)
    ensures '\n' !in WRITABLE_LINE
  {
    hide TrimSpace;
    WritableText();
    TrimPadded("    ", "writable: true", "");
    TrimPadded(" ", "true", "");
  }

  lemma WritableText()
    ensures WRITABLE_LINE == "    " + "writable: true" + "" && IsTrimmed("writable: true") && AllSpace("    ") && AllSpace("")
    ensures AllSpace(" ") && IsTrimmed("true") && IsTrue("true")
    ensures var t := "writable: true"; WRITABLE <= t && t[|WRITABLE|..] == " " + "true" + "" && !(LOCATION <= t) && !("#" <= t)
    ensures '\n' !in WRITABLE_LINE
  {
    var t := "writable: true";
    assert t == WRITABLE + (" " + "true");
  }

  // ---------------------------------------------------------------------------
  // Entries of lines put together

  lemma {:induction false} EntriesConcat(before: seq<Entry>, a: seq<string>, b: seq<string>, env: Environment)
    ensures Entries(before, a + b, env) == Entries(Entries(before, a, env), b, env)
  {
    hide ReadEntry;
    if b == [] {
      assert a + b == a;
    } else {
      assert (a + b)[..|a + b| - 1] == a + b[..|b| - 1];
      EntriesConcat(before, a, b[..|b| - 1], env);
    }
  }

  lemma EntriesOne(before: seq<Entry>, line: string, env: Environment)
    ensures Entries(before, [line], env) == ReadEntry(before, line, env)
  {
    hide ReadEntry;
    assert [line][..0] == [];
  }

  lemma {:induction false} EntriesGrow(a: seq<Entry>, b: seq<Entry>, lines: seq<string>, env: Environment)
    requires b != []
    ensures Entries(b, lines, env) != [] && Entries(a + b, lines, env) == a + Entries(b, lines, env)
  {
    hide IsLocation, IsWritable, LocationOf, WritableOf;
    if lines != [] { EntriesGrow(a, b, lines[..|lines| - 1], env); }
  }

  function Added(paths: seq<string>, env: Environment): (entries: seq<Entry>)
    ensures |entries| == |paths|
    ensures forall i :: 0 <= i < |paths| ==> entries[i] == Entry(NormalizeLocation(Paths.Clean(paths[i]), env), true)
  {
    seq(|paths|, i requires 0 <= i < |paths| => Entry(NormalizeLocation(Paths.Clean(paths[i]), env), true))
  }

  lemma PairReads(before: seq<Entry>, path: string, env: Environment)
    requires Paths.IsRooted(path)
    ensures Entries(before, ["  - location: " + path, WRITABLE_LINE], env) == before + [Entry(NormalizeLocation(path, env), true)]
  {
    hide IsLocation, IsWritable, LocationOf, WritableOf, NormalizeLocation, EndsBlock;
    var line := "  - location: " + path;
    LocationLine(path, env);
    WritableLine();
    assert [line, WRITABLE_LINE] == [line] + [WRITABLE_LINE];
    EntriesConcat(before, [line], [WRITABLE_LINE], env);
    EntriesOne(before, line, env);
    EntriesOne(before + [Entry(NormalizeLocation(path, env), false)], WRITABLE_LINE, env);
  }

  /** The formatted lines read as one writable entry each. */
  lemma {:induction false} FormattedReads(before: seq<Entry>, paths: seq<string>, env: Environment)
    requires forall i :: 0 <= i < |paths| ==> Paths.IsRooted(paths[i])
    ensures Entries(before, FormatMounts(paths), env) == before + Added(paths, env)
  {
    hide NormalizeLocation, Paths.Clean, ReadEntry, Paths.IsRooted;
    if paths == [] {
      assert FormatMounts(paths) == [];
    } else {
      var k := |paths| - 1;
      var line := "  - location: " + Paths.Clean(paths[k]);
      FormattedReads(before, paths[..k], env);
      EntriesConcat(before, FormatMounts(paths[..k]), [line, WRITABLE_LINE], env);
      Paths.CleanTwice(paths[k]);
      PairReads(before + Added(paths[..k], env), Paths.Clean(paths[k]), env);
      assert Added(paths, env) == Added(paths[..k], env) + [Entry(NormalizeLocation(Paths.Clean(paths[k]), env), true)];
    }
  }

  lemma {:induction false} FormattedStays(paths: seq<string>, env: Environment)
    requires forall i :: 0 <= i < |paths| ==> Paths.IsRooted(paths[i]) && '\n' !in Paths.Clean(paths[i])
    ensures forall j :: 0 <= j < |FormatMounts(paths)| ==> !EndsBlock(FormatMounts(paths)[j]) && '\n' !in FormatMounts(paths)[j]
  {
    hide Paths.Clean, EndsBlock, IsLocation, IsWritable, LocationOf, WritableOf, Paths.IsRooted;
    if paths != [] {
      var k := |paths| - 1;
      FormattedStays(paths[..k], env);
      Paths.CleanTwice(paths[k]);
      LocationLine(Paths.Clean(paths[k]), env);
      WritableLine();
      assert FormatMounts(paths) == FormatMounts(paths[..k]) + ["  - location: " + Paths.Clean(paths[k]), WRITABLE_LINE];
    }
  }

  // ---------------------------------------------------------------------------
  // Lines that fall to the wrong entry

  /** The last writable line before the first location, if there is one. */
  function Stray(lines: seq<string>): Option<bool> {
    if lines == [] || IsLocation(lines[0]) then None
    else if Stray(lines[1..]).Some? then Stray(lines[1..])
    else if IsWritable(lines[0]) then Some(WritableOf(lines[0]))
    else None
  }

  function WithStray(entries: seq<Entry>, stray: Option<bool>): (result: seq<Entry>)
    ensures |result| == |entries|
  {
    if entries == [] || stray.None? then entries
    else entries[|entries| - 1 := entries[|entries| - 1].(writable := stray.value)]
  }

  /** Lines after some entries: a stray writable line goes to the last of them. */
  lemma {:induction false} EntriesOnto(before: seq<Entry>, lines: seq<string>, env: Environment)
    requires before != []
    ensures Entries(before, lines, env) == WithStray(before, Stray(lines)) + Entries([], lines, env)
    decreases |lines|
  {
    hide IsLocation, IsWritable, LocationOf, WritableOf, Entries;
    if lines == [] {
      NoLines(before, env);
      NoLines([], env);
    } else {
      var line, rest := lines[0], lines[1..];
      assert lines == [line] + rest;
      EntriesConcat(before, [line], rest, env);
      EntriesConcat([], [line], rest, env);
      EntriesOne(before, line, env);
      EntriesOne([], line, env);
      if IsLocation(line) {
        var entry := Entry(LocationOf(line, env), false);
        assert ReadEntry([], line, env) == [entry];
        EntriesGrow(before, [entry], rest, env);
      } else {
        var after := ReadEntry(before, line, env);
        EntriesOnto(after, rest, env);
        assert WithStray(after, Stray(rest)) == WithStray(before, Stray(lines));
      }
    }
  }

  lemma NoLines(before: seq<Entry>, env: Environment)
    ensures Entries(before, [], env) == before
  {}

  // The lines after the last entry belong to no entry, and without entries the addition
  // goes to the top.
  lemma {:induction false} LastLineFacts(lines: seq<string>, env: Environment)
    ensures var k := LastLine(lines, env);
      && (Entries([], lines, env) != [] ==> forall j :: k <= j < |lines| ==> !IsLocation(lines[j]) && !IsWritable(lines[j]))
      && (Entries([], lines, env) == [] ==> k == 0)
  {
    hide IsLocation, IsWritable, LocationOf, WritableOf;
    if lines != [] { LastLineFacts(lines[..|lines| - 1], env); }
  }

  lemma {:induction false} NothingRead(before: seq<Entry>, lines: seq<string>, env: Environment)
    requires forall j :: 0 <= j < |lines| ==> !IsLocation(lines[j]) && !IsWritable(lines[j])
    ensures Entries(before, lines, env) == before && Stray(lines).None?
    decreases |lines|
  {
    hide IsLocation, IsWritable, LocationOf, WritableOf, Entries;
    if lines == [] {
      NoLines(before, env);
    } else {
      NothingRead(before, lines[1..], env);
      assert lines == [lines[0]] + lines[1..];
      EntriesConcat(before, [lines[0]], lines[1..], env);
      EntriesOne(before, lines[0], env);
    }
  }

  // ---------------------------------------------------------------------------
  // The edited file

  /** The lines of the block after the edit. */
  function NewRegion(lines: seq<string>, block: Block, paths: seq<string>): seq<string>
    requires block.Block? ==> block.start < |lines| && block.last <= |block.lines|
  {
    match block
    case NoBlock => FormatMounts(paths)
    case Block(start, inlineEmpty, region, _, last) =>
      if inlineEmpty then FormatMounts(paths) + Region(lines, start)
      else region[..last] + FormatMounts(paths) + region[last..]
  }

  /** Where the block starts after the edit. */
  function NewStart(lines: seq<string>, block: Block): nat
    requires lines != []
  {
    if block.NoBlock? then |Spaced(lines)| else block.start
  }

  lemma StartLines()
    ensures IsBlockStart("mounts:") && !IsBlockStart("") && !IsEmptyBlock("") && '\n' !in "mounts:" && '\n' !in ""
  {
    TrimOfTrimmed("mounts:");
    TrimOfTrimmed("");
  }

  /** The pieces the lines of a file with a block consist of. */
  lemma BlockPieces(lines: seq<string>, start: nat)
    requires start < |lines|
    ensures var region := Region(lines, start); var tail := lines[start + 1 + |region|..];
      && start + 1 + |region| <= |lines|
      && lines == lines[..start] + [lines[start]] + region + tail
      && (forall j :: 0 <= j < |region| ==> !EndsBlock(region[j]))
      && (tail != [] ==> EndsBlock(tail[0]))
  {
    hide EndsBlock;
  }

  // A block is read back from its pieces.
  lemma ReadsBlock(front: seq<string>, opening: string, region: seq<string>, tail: seq<string>, env: Environment)
    requires forall j :: 0 <= j < |front| ==> !IsBlockStart(front[j]) && !IsEmptyBlock(front[j])
    requires IsBlockStart(opening) && forall j :: 0 <= j < |region| ==> !EndsBlock(region[j])
    requires tail != [] ==> EndsBlock(tail[0])
    ensures var lines := front + [opening] + region + tail;
      ParseBlock(lines, env) == Block(|front|, false, region, Entries([], region, env), LastLine(region, env))
  {
    hide EndsBlock, IsBlockStart, IsEmptyBlock, Entries, LastLine;
    var lines := front + [opening] + region + tail;
    assert forall j :: 0 <= j < |front| ==> lines[j] == front[j];
    FindBlockIs(lines, |front|);
    var rest := lines[|front| + 1..];
    assert rest == region + tail;
    BlockLengthIs(rest, |region|);
    assert rest[..|region|] == region;
  }

  ghost predicate AllWrite(paths: seq<string>) {
    forall i :: 0 <= i < |paths| ==> Writes(paths[i])
  }

  lemma ParseFacts(lines: seq<string>, env: Environment)
    ensures var block := ParseBlock(lines, env); var start := if block.NoBlock? then |lines| else block.start;
      && start <= |lines|
      && (block.Block? ==> start < |lines|)
      && (forall j :: 0 <= j < start ==> !IsBlockStart(lines[j]) && !IsEmptyBlock(lines[j]))
      && (block.Block? && block.inlineEmpty ==> block.entries == [])
      && (block.Block? && !block.inlineEmpty ==>
            && IsBlockStart(lines[start]) && block.lines == Region(lines, start)
            && block.entries == Entries([], block.lines, env) && block.last == LastLine(block.lines, env))
  {
    hide IsBlockStart, IsEmptyBlock, Entries, LastLine, Region;
  }

  ghost predicate StaysInside(lines: seq<string>) {
    forall j :: 0 <= j < |lines| ==> !EndsBlock(lines[j])
  }

  lemma EditParsesInline(lines: seq<string>, start: nat, added: seq<string>, env: Environment)
    requires start < |lines| && StaysInside(added)
    requires forall j :: 0 <= j < start ==> !IsBlockStart(lines[j]) && !IsEmptyBlock(lines[j])
    ensures var region := added + Region(lines, start);
      ParseBlock(lines[..start] + (["mounts:"] + added) + lines[start + 1..], env)
      == Block(start, false, region, Entries([], region, env), LastLine(region, env))
  {
    BlockPieces(lines, start);
    hide EndsBlock, IsBlockStart, IsEmptyBlock, Entries, LastLine, Region, ParseBlock;
    StartLines();
    var region := Region(lines, start);
    var tail := lines[start + 1 + |region|..];
    InlineSplits(lines, start, region, tail, "mounts:", added);
    ReadsBlock(lines[..start], "mounts:", added + region, tail, env);
  }

  lemma InlineSplits(lines: seq<string>, start: nat, region: seq<string>, tail: seq<string>, opening: string, added: seq<string>)
    requires start < |lines| && lines == lines[..start] + [lines[start]] + region + tail
    ensures lines[..start] + ([opening] + added) + lines[start + 1..] == lines[..start] + [opening] + (added + region) + tail
  {
    assert lines[start + 1..] == region + tail;
  }

  lemma EditParsesBlock(lines: seq<string>, start: nat, k: nat, added: seq<string>, env: Environment)
    requires start < |lines| && StaysInside(added) && IsBlockStart(lines[start]) && k <= |Region(lines, start)|
    requires forall j :: 0 <= j < start ==> !IsBlockStart(lines[j]) && !IsEmptyBlock(lines[j])
    ensures start + 1 + k <= |lines|
    ensures var region := Region(lines, start)[..k] + added + Region(lines, start)[k..];
      ParseBlock(lines[..start + 1 + k] + added + lines[start + 1 + k..], env)
      == Block(start, false, region, Entries([], region, env), LastLine(region, env))
  {
    BlockPieces(lines, start);
    hide EndsBlock, IsBlockStart, IsEmptyBlock, Entries, LastLine, Region, ParseBlock;
    var region := Region(lines, start);
    var tail := lines[start + 1 + |region|..];
    RegionSplits(lines, start, region, tail, k, added);
    ReadsBlock(lines[..start], lines[start], region[..k] + added + region[k..], tail, env);
  }

  lemma EditParsesNone(lines: seq<string>, added: seq<string>, env: Environment)
    requires lines != [] && StaysInside(added)
    requires forall j :: 0 <= j < |lines| ==> !IsBlockStart(lines[j]) && !IsEmptyBlock(lines[j])
    ensures ParseBlock(Spaced(lines) + ["mounts:"] + added, env)
         == Block(|Spaced(lines)|, false, added, Entries([], added, env), LastLine(added, env))
  {
    hide EndsBlock, IsBlockStart, IsEmptyBlock, Entries, LastLine, Region, ParseBlock;
    StartLines();
    ReadsBlock(Spaced(lines), "mounts:", added, [], env);
    assert Spaced(lines) + ["mounts:"] + added + [] == Spaced(lines) + ["mounts:"] + added;
  }

  /** The edited file parses to the block with the additions in it. */
  lemma EditParses(lines: seq<string>, paths: seq<string>, env: Environment)
    requires lines != [] && AllWrite(paths)
    ensures var block := ParseBlock(lines, env); var region := NewRegion(lines, block, paths);
      ParseBlock(AddedLines(lines, block, paths), env)
      == Block(NewStart(lines, block), false, region, Entries([], region, env), LastLine(region, env))
  {
    hide EndsBlock, IsBlockStart, IsEmptyBlock, Entries, LastLine, FormatMounts, Paths.Clean, Region, Paths.IsRooted, ParseBlock,
         Spaced;
    var block, added := ParseBlock(lines, env), FormatMounts(paths);
    FormattedStays(paths, env);
    ParseFacts(lines, env);
    if block.NoBlock? {
      EditParsesNone(lines, added, env);
    } else if block.inlineEmpty {
      EditParsesInline(lines, block.start, added, env);
    } else {
      EditParsesBlock(lines, block.start, block.last, added, env);
    }
  }

  lemma RegionSplits(lines: seq<string>, start: nat, region: seq<string>, tail: seq<string>, k: nat, added: seq<string>)
    requires start < |lines| && lines == lines[..start] + [lines[start]] + region + tail && k <= |region|
    ensures lines[..start + 1 + k] + added + lines[start + 1 + k..]
         == lines[..start] + [lines[start]] + (region[..k] + added + region[k..]) + tail
  {
    assert lines[..start + 1 + k] == lines[..start] + [lines[start]] + region[..k];
    assert lines[start + 1 + k..] == region[k..] + tail;
  }

  // ---------------------------------------------------------------------------
  // The entries after the edit

  /** The writable line that falls to the last added entry: one that belonged to no entry
      before. */
  function StrayAfter(lines: seq<string>, block: Block): Option<bool>
    requires block.Block? ==> block.start < |lines|
  {
    match block
    case NoBlock => None
    case Block(start, inlineEmpty, region, entries, _) =>
      if inlineEmpty then Stray(Region(lines, start)) else if entries == [] then Stray(region) else None
  }

  function Before(block: Block): seq<Entry> {
    if block.NoBlock? then [] else block.entries
  }

  /** Entries that an inline empty list was followed by. */
  function After(lines: seq<string>, block: Block, env: Environment): seq<Entry>
    requires block.Block? ==> block.start < |lines|
  {
    if block.Block? && block.inlineEmpty then Entries([], Region(lines, block.start), env) else []
  }

  lemma EditEntries(lines: seq<string>, paths: seq<string>, env: Environment)
    requires lines != [] && paths != [] && AllWrite(paths)
    ensures var block := ParseBlock(lines, env);
      Entries([], NewRegion(lines, block, paths), env)
      == Before(block) + WithStray(Added(paths, env), StrayAfter(lines, block)) + After(lines, block, env)
  {
    hide EndsBlock, IsBlockStart, IsEmptyBlock, Entries, LastLine, FormatMounts, Writes, Region, ParseBlock, Stray, Added, WithStray;
    ParseFacts(lines, env);
    var block := ParseBlock(lines, env);
    if block.NoBlock? {
      NoneEntries(paths, env);
    } else if block.inlineEmpty {
      InlineEntries(Region(lines, block.start), paths, env);
    } else {
      RegionEntries(block.lines, paths, env);
    }
  }

  lemma NoneEntries(paths: seq<string>, env: Environment)
    requires AllWrite(paths)
    ensures Entries([], FormatMounts(paths), env) == [] + WithStray(Added(paths, env), None) + []
  {
    hide Entries, FormatMounts, Added, Paths.Clean;
    FormattedReads([], paths, env);
  }

  lemma InlineEntries(region: seq<string>, paths: seq<string>, env: Environment)
    requires paths != [] && AllWrite(paths)
    ensures Entries([], FormatMounts(paths) + region, env)
         == [] + WithStray(Added(paths, env), Stray(region)) + Entries([], region, env)
  {
    hide Entries, FormatMounts, Writes, Paths.Clean, Stray, NormalizeLocation, Added, WithStray;
    var added := Added(paths, env);
    NoneEntries(paths, env);
    NoStray(added);
    EntriesConcat([], FormatMounts(paths), region, env);
    EntriesOnto(added, region, env);
  }

  lemma NoStray(entries: seq<Entry>)
    ensures [] + WithStray(entries, None) + [] == entries
    ensures forall stray: Option<bool> :: [] + WithStray(entries, stray) == WithStray(entries, stray)
  {}

  lemma RegionEntries(region: seq<string>, paths: seq<string>, env: Environment)
    requires paths != [] && AllWrite(paths)
    ensures var k := LastLine(region, env); var entries := Entries([], region, env);
      Entries([], region[..k] + FormatMounts(paths) + region[k..], env)
      == entries + WithStray(Added(paths, env), if entries == [] then Stray(region) else None)
  {
    hide Entries, LastLine, FormatMounts, Paths.Clean, Paths.IsRooted, Stray, NormalizeLocation, IsLocation, IsWritable;
    var k, entries, added, lines := LastLine(region, env), Entries([], region, env), Added(paths, env), FormatMounts(paths);
    var early := Entries([], region[..k], env);
    assert region == region[..k] + region[k..];
    EntriesConcat([], region[..k], region[k..], env);
    EntriesConcat([], region[..k] + lines, region[k..], env);
    EntriesConcat([], region[..k], lines, env);
    FormattedReads(early, paths, env);
    LastLineFacts(region, env);
    if entries == [] {
      NoLines([], env);
      assert region[..0] == [] && region[0..] == region && [] + added == added;
      EntriesOnto(added, region, env);
    } else {
      NothingRead(early, region[k..], env);
      NothingRead(early + added, region[k..], env);
    }
  }

  // ---------------------------------------------------------------------------
  // The main result

  lemma {:induction false} CoverOfConcat(a: seq<Entry>, b: seq<Entry>, path: string, env: Environment)
    ensures FirstCover(a + b, path, env) == if FirstCover(a, path, env).Some? then FirstCover(a, path, env) else FirstCover(b, path, env)
  {
    hide MountCovers;
    if a == [] {
      assert a + b == b;
    } else {
      assert (a + b)[1..] == a[1..] + b;
      CoverOfConcat(a[1..], b, path, env);
    }
  }

  /** The first entry that covers a path is writable. */
  predicate IsServed(entries: seq<Entry>, path: string, env: Environment) {
    FirstCover(entries, path, env).Some? && FirstCover(entries, path, env).value.writable
  }

  ghost predicate AllServed(entries: seq<Entry>, required: seq<string>, env: Environment) {
    forall i :: 0 <= i < |required| ==> IsServed(entries, Resolve(required[i], env), env)
  }

  // With a block, a call asks for no change exactly when every path is served.
  lemma {:induction false} NoChangeIffServed(entries: seq<Entry>, required: seq<string>, env: Environment)
    ensures FirstRefusal(entries, required, env).None? && Uncovered(entries, required, env) == []
       <==> AllServed(entries, required, env)
  {
    hide FirstCover, Resolve;
    if required != [] {
      var k := |required| - 1;
      NoChangeIffServed(entries, required[..k], env);
      assert AllServed(entries, required, env) <==>
        AllServed(entries, required[..k], env) && IsServed(entries, Resolve(required[k], env), env);
    }
  }

  // ----- what is pending

  lemma CleanWrites(path: string, env: Environment)
    requires Writes(path)
    ensures Writes(Resolve(path, env)) && Resolve(Resolve(path, env), env) == Resolve(path, env)
    ensures Resolve(path, env) == Paths.Clean(path)
  {
    hide Paths.Clean, NormalizeLocation;
    ResolveOfRooted(path, env);
    ResolveOfRooted(Paths.Clean(path), env);
  }

  ghost predicate Names(paths: seq<string>, path: string, env: Environment) {
    exists j :: 0 <= j < |paths| && Resolve(paths[j], env) == path
  }

  lemma NamesGrow(paths: seq<string>, last: string, path: string, env: Environment)
    ensures Names(paths + [last], path, env) <==> Names(paths, path, env) || Resolve(last, env) == path
  {
    hide Resolve;
    var all := paths + [last];
    assert all[|paths|] == last;
    if Names(paths, path, env) {
      var j :| 0 <= j < |paths| && Resolve(paths[j], env) == path;
      assert Resolve(all[j], env) == path;
    }
  }

  /** The pending paths are the required ones without a cover. */
  lemma {:induction false} UncoveredFacts(entries: seq<Entry>, required: seq<string>, env: Environment)
    requires AllWrite(required)
    ensures AllWrite(Uncovered(entries, required, env))
    ensures forall path :: Names(Uncovered(entries, required, env), path, env) <==>
      Names(required, path, env) && FirstCover(entries, path, env).None?
  {
    hide FirstCover, Resolve, Writes, Names;
    if required == [] {
      NamesNothing(env);
    } else {
      var k := |required| - 1;
      var path, front := Resolve(required[k], env), Uncovered(entries, required[..k], env);
      UncoveredFacts(entries, required[..k], env);
      CleanWrites(required[k], env);
      assert required == required[..k] + [required[k]];
      forall p
        ensures Names(Uncovered(entries, required, env), p, env) <==> Names(required, p, env) && FirstCover(entries, p, env).None?
      {
        NamesGrow(required[..k], required[k], p, env);
        NamesGrow(front, path, p, env);
        assert front + [] == front;
      }
    }
  }

  lemma NamesNothing(env: Environment)
    ensures forall path :: !Names([], path, env)
  {}

  // ----- first covers among the added entries

  lemma {:induction false} FirstCoverAt(entries: seq<Entry>, path: string, j: nat, env: Environment) returns (m: nat)
    requires j < |entries| && MountCovers(entries[j].location, path, env)
    ensures m <= j && MountCovers(entries[m].location, path, env) && FirstCover(entries, path, env) == Some(entries[m])
    ensures forall i :: 0 <= i < m ==> !MountCovers(entries[i].location, path, env)
  {
    hide MountCovers;
    if MountCovers(entries[0].location, path, env) {
      m := 0;
    } else {
      m := FirstCoverAt(entries[1..], path, j - 1, env);
      m := m + 1;
      assert forall i :: 1 <= i < m ==> entries[i] == entries[1..][i - 1];
    }
  }

  /** One of the added entries covers the path and is writable: a stray read-only line falls
      to the last of them. Or none covers it, and a writable entry after them does. */
  ghost predicate IsHeld(paths: seq<string>, stray: Option<bool>, after: seq<Entry>, path: string, env: Environment) {
    || (exists i :: 0 <= i < |paths| && AddsCover(paths[i], path, env) && (i < |paths| - 1 || stray != Some(false)))
    || ((forall i :: 0 <= i < |paths| ==> !AddsCover(paths[i], path, env)) && IsServed(after, Resolve(path, env), env))
  }

  ghost predicate AllHeld(paths: seq<string>, stray: Option<bool>, after: seq<Entry>, env: Environment) {
    forall j :: 0 <= j < |paths| ==> IsHeld(paths, stray, after, paths[j], env)
  }

  lemma AddedCovers(paths: seq<string>, stray: Option<bool>, path: string, env: Environment)
    requires AllWrite(paths)
    ensures var entries := WithStray(Added(paths, env), stray); forall i :: 0 <= i < |paths| ==>
      && (MountCovers(entries[i].location, Resolve(path, env), env) <==> AddsCover(paths[i], path, env))
      && (entries[i].writable <==> i < |paths| - 1 || stray != Some(false))
  {
    hide MountCovers, NormalizeLocation, Paths.Clean, Resolve;
    forall i | 0 <= i < |paths|
      ensures Resolve(paths[i], env) == Paths.Clean(paths[i])
    {
      assert Writes(paths[i]);
      CleanWrites(paths[i], env);
    }
  }

  lemma NoCover(entries: seq<Entry>, path: string, env: Environment)
    requires forall i :: 0 <= i < |entries| ==> !MountCovers(entries[i].location, path, env)
    ensures FirstCover(entries, path, env).None?
  {
    hide MountCovers;
  }

  /** The first cover among the added entries and those after them is writable just when the
      path is held. */
  lemma HeldIffServed(paths: seq<string>, stray: Option<bool>, after: seq<Entry>, path: string, env: Environment)
    requires AllWrite(paths)
    ensures IsServed(WithStray(Added(paths, env), stray) + after, Resolve(path, env), env) <==> IsHeld(paths, stray, after, path, env)
  {
    hide MountCovers, AddsCover, Resolve, WithStray, Added, FirstCover, Writes;
    var entries, wanted := WithStray(Added(paths, env), stray), Resolve(path, env);
    AddedCovers(paths, stray, path, env);
    CoverOfConcat(entries, after, wanted, env);
    if i :| 0 <= i < |paths| && AddsCover(paths[i], path, env) {
      var m := FirstCoverAt(entries, wanted, i, env);
      if entries[m].writable {
        assert IsHeld(paths, stray, after, path, env);
      } else {
        assert forall k :: 0 <= k < |paths| - 1 ==> !AddsCover(paths[k], path, env);
      }
    } else {
      NoCover(entries, wanted, env);
    }
  }

  /** The stray line makes the last added entry read-only, and no other added entry covers
      its path. */
  predicate IsSpoiled(paths: seq<string>, stray: Option<bool>, env: Environment)
    requires paths != []
  {
    && stray == Some(false)
    && forall j :: 0 <= j < |paths| - 1 ==> !AddsCover(paths[j], paths[|paths| - 1], env)
  }

  /** When every added entry covers its own path, only a stray line can spoil one. */
  lemma HeldUnlessSpoiled(paths: seq<string>, stray: Option<bool>, after: seq<Entry>, env: Environment)
    requires paths != [] && forall j :: 0 <= j < |paths| ==> AddsCover(paths[j], paths[j], env)
    ensures AllHeld(paths, stray, after, env) <==> !IsSpoiled(paths, stray, env)
  {
    hide AddsCover, IsServed;
    var last := |paths| - 1;
    assert AddsCover(paths[last], paths[last], env);
    if !IsSpoiled(paths, stray, env) {
      forall j | 0 <= j < |paths|
        ensures IsHeld(paths, stray, after, paths[j], env)
      {}
    } else {
      assert !IsHeld(paths, stray, after, paths[last], env);
    }
  }

  /** The paths the edit adds, for a given file. */
  function PendingOf(lines: seq<string>, required: seq<string>, env: Environment): seq<string> {
    Pending(ParseBlock(lines, env), required, env)
  }

  /** Each pending path is a required one without a cover; the other required paths are
      served. */
  ghost predicate IsPending(before: seq<Entry>, paths: seq<string>, required: seq<string>, env: Environment) {
    && AllWrite(paths)
    && (forall path :: Names(paths, path, env) ==> Names(required, path, env) && FirstCover(before, path, env).None?)
    && (forall path :: Names(required, path, env) ==> IsServed(before, path, env) || Names(paths, path, env))
  }

  lemma CoverOfThree(a: seq<Entry>, b: seq<Entry>, c: seq<Entry>, path: string, env: Environment)
    ensures IsServed(a, path, env) ==> IsServed(a + b + c, path, env)
    ensures FirstCover(a, path, env).None? ==> (IsServed(a + b + c, path, env) <==> IsServed(b + c, path, env))
  {
    hide FirstCover;
    CoverOfConcat(a, b + c, path, env);
    assert a + (b + c) == a + b + c;
  }

  // Every pending path is one of the required ones.
  lemma PendingIsRequired(before: seq<Entry>, paths: seq<string>, required: seq<string>, j: nat, env: Environment) returns (i: nat)
    requires j < |paths| && IsPending(before, paths, required, env)
    ensures i < |required| && Resolve(required[i], env) == Resolve(paths[j], env)
    ensures FirstCover(before, Resolve(required[i], env), env).None?
  {
    hide FirstCover, Resolve, Writes, IsServed;
    assert Names(paths, Resolve(paths[j], env), env);
    i :| 0 <= i < |required| && Resolve(required[i], env) == Resolve(paths[j], env);
  }

  lemma ServedOne(before: seq<Entry>, paths: seq<string>, stray: Option<bool>, after: seq<Entry>,
                  required: seq<string>, i: nat, env: Environment)
    requires IsPending(before, paths, required, env) && AllHeld(paths, stray, after, env) && i < |required|
    ensures IsServed(before + WithStray(Added(paths, env), stray) + after, Resolve(required[i], env), env)
  {
    hide FirstCover, Resolve, Writes, IsHeld, WithStray, Added, IsServed;
    var path := Resolve(required[i], env);
    assert Names(required, path, env);
    CoverOfThree(before, WithStray(Added(paths, env), stray), after, path, env);
    if !IsServed(before, path, env) {
      var j :| 0 <= j < |paths| && Resolve(paths[j], env) == path;
      HeldIffServed(paths, stray, after, paths[j], env);
    }
  }

  lemma ServedAfterEdit(before: seq<Entry>, paths: seq<string>, stray: Option<bool>, after: seq<Entry>,
                        required: seq<string>, env: Environment)
    requires IsPending(before, paths, required, env)
    ensures AllServed(before + WithStray(Added(paths, env), stray) + after, required, env) <==> AllHeld(paths, stray, after, env)
  {
    hide FirstCover, Resolve, Writes, WithStray, Added, IsServed, IsPending, IsHeld;
    var entries := before + WithStray(Added(paths, env), stray) + after;
    if AllHeld(paths, stray, after, env) {
      forall i | 0 <= i < |required|
        ensures IsServed(entries, Resolve(required[i], env), env)
      {
        ServedOne(before, paths, stray, after, required, i, env);
      }
    } else {
      var j :| 0 <= j < |paths| && !IsHeld(paths, stray, after, paths[j], env);
      var i := PendingIsRequired(before, paths, required, j, env);
      CoverOfThree(before, WithStray(Added(paths, env), stray), after, Resolve(paths[j], env), env);
      PendingWrite(before, paths, required, env);
      HeldIffServed(paths, stray, after, paths[j], env);
    }
  }

  lemma PendingWrite(before: seq<Entry>, paths: seq<string>, required: seq<string>, env: Environment)
    requires IsPending(before, paths, required, env)
    ensures AllWrite(paths)
  {}

  // ----- the theorem

  lemma {:induction false} NoRefusal(entries: seq<Entry>, required: seq<string>, env: Environment)
    requires FirstRefusal(entries, required, env).None?
    ensures forall path :: Names(required, path, env) && FirstCover(entries, path, env).Some? ==> IsServed(entries, path, env)
  {
    hide FirstCover, Resolve, Names;
    if required == [] {
      NamesNothing(env);
    } else {
      var k := |required| - 1;
      NoRefusal(entries, required[..k], env);
      assert required == required[..k] + [required[k]];
      forall path | Names(required, path, env) && FirstCover(entries, path, env).Some?
        ensures IsServed(entries, path, env)
      {
        NamesGrow(required[..k], required[k], path, env);
      }
    }
  }

  lemma PendingFacts(lines: seq<string>, required: seq<string>, env: Environment)
    requires AllWrite(required)
    requires var block := ParseBlock(lines, env); block.Block? ==> FirstRefusal(block.entries, required, env).None?
    ensures IsPending(Before(ParseBlock(lines, env)), PendingOf(lines, required, env), required, env)
  {
    hide FirstCover, Resolve, Names, Writes, ParseBlock, IsServed, FirstRefusal, Uncovered;
    var block := ParseBlock(lines, env);
    if block.NoBlock? {
      NothingCovers(env);
    } else {
      NoRefusal(block.entries, required, env);
      UncoveredFacts(block.entries, required, env);
    }
  }

  lemma NothingCovers(env: Environment)
    ensures forall path :: FirstCover([], path, env).None?
  {}

  ghost predicate OneLiners(lines: seq<string>) {
    forall j :: 0 <= j < |lines| ==> '\n' !in lines[j]
  }

  lemma OneLinersConcat(a: seq<string>, b: seq<string>)
    requires OneLiners(a) && OneLiners(b)
    ensures OneLiners(a + b)
  {}

  lemma AddedAreOneLiners(lines: seq<string>, block: Block, paths: seq<string>, env: Environment)
    requires lines != [] && OneLiners(lines) && AllWrite(paths)
    requires block.Block? ==> block.start < |lines| && block.last <= |lines| - block.start - 1
    ensures OneLiners(AddedLines(lines, block, paths)) && AddedLines(lines, block, paths) != []
  {
    hide FormatMounts, OneLiners, EndsBlock, Paths.Clean, Paths.IsRooted;
    FormattedOneLiners(paths, env);
    var added := FormatMounts(paths);
    OneLinersConcat(["mounts:"], added);
    match block
    case NoBlock =>
      OneLinersConcat(lines, [""]);
      OneLinersConcat(Spaced(lines), ["mounts:"]);
      OneLinersConcat(Spaced(lines) + ["mounts:"], added);
    case Block(start, inlineEmpty, _, _, last) =>
      if inlineEmpty {
        SliceIsOneLiners(lines, start, start + 1);
        OneLinersConcat(lines[..start], ["mounts:"] + added);
        OneLinersConcat(lines[..start] + (["mounts:"] + added), lines[start + 1..]);
      } else {
        var at := start + 1 + last;
        SliceIsOneLiners(lines, at, at);
        OneLinersConcat(lines[..at], added);
        OneLinersConcat(lines[..at] + added, lines[at..]);
      }
  }

  lemma SliceIsOneLiners(lines: seq<string>, a: nat, b: nat)
    requires OneLiners(lines) && a <= |lines| && b <= |lines|
    ensures OneLiners(lines[..a]) && OneLiners(lines[b..])
  {}

  lemma FormattedOneLiners(paths: seq<string>, env: Environment)
    requires AllWrite(paths)
    ensures OneLiners(FormatMounts(paths)) && OneLiners(["mounts:"]) && OneLiners([""])
  {
    hide FormatMounts, EndsBlock, Paths.Clean, Paths.IsRooted;
    FormattedStays(paths, env);
    StartLines();
  }

  lemma EditedLines(contents: string, required: seq<string>, env: Environment)
    requires AllWrite(required)
    requires AddMounts(contents, required, env).Edited? && AddMounts(contents, required, env).changed
    ensures var lines := Text.Split(contents, '\n'); var paths := PendingOf(lines, required, env);
      && paths != [] && IsPending(Before(ParseBlock(lines, env)), paths, required, env)
      && Text.Split(AddMounts(contents, required, env).contents, '\n') == AddedLines(lines, ParseBlock(lines, env), paths)
  {
    hide Text.Split, Text.Join, ParseBlock, AddedLines, FirstRefusal, Uncovered, Names, FirstCover, Resolve, IsServed;
    var lines := Text.Split(contents, '\n');
    Text.SplitPieces(contents, '\n');
    PendingFacts(lines, required, env);
    var paths := PendingOf(lines, required, env);
    AddedAreOneLiners(lines, ParseBlock(lines, env), paths, env);
    Text.SplitOfJoin(AddedLines(lines, ParseBlock(lines, env), paths), '\n');
  }

  lemma NoChangeWithBlock(contents: string, required: seq<string>, env: Environment)
    requires ParseBlock(Text.Split(contents, '\n'), env).Block?
    ensures AddMounts(contents, required, env) == Edited(contents, false)
       <==> AllServed(ParseBlock(Text.Split(contents, '\n'), env).entries, required, env)
  {
    hide Text.Split, Text.Join, ParseBlock, AddedLines, FirstRefusal, Uncovered, AllServed;
    NoChangeIffServed(ParseBlock(Text.Split(contents, '\n'), env).entries, required, env);
  }

  /** After an edit, every required path's first covering mount is writable, and a second
      call reports no change, exactly when every added path is held: by an added entry that no
      stray read-only line spoils, or else by one that follows them. */
  lemma AddedMountsServe(contents: string, required: seq<string>, env: Environment)
    requires AllWrite(required)
    requires AddMounts(contents, required, env).Edited? && AddMounts(contents, required, env).changed
    ensures var lines := Text.Split(contents, '\n'); var block := ParseBlock(lines, env);
      var edited := AddMounts(contents, required, env).contents;
      var held := AllHeld(PendingOf(lines, required, env), StrayAfter(lines, block), After(lines, block, env), env);
      && (AllServed(Before(ParseBlock(Text.Split(edited, '\n'), env)), required, env) <==> held)
      && (AddMounts(edited, required, env) == Edited(edited, false) <==> held)
  {
    hide Text.Split, Text.Join, AddMounts, AddedLines, NewRegion, Entries, LastLine, AllServed, Names, FirstCover, Resolve, IsServed,
         IsHeld, AllHeld, WithStray, Added, StrayAfter, After, NewStart;
    var lines := Text.Split(contents, '\n');
    EditedLines(contents, required, env);
    ParseFacts(lines, env);
    hide ParseBlock;
    var block, paths := ParseBlock(lines, env), PendingOf(lines, required, env);
    EditParses(lines, paths, env);
    EditEntries(lines, paths, env);
    ServedAfterEdit(Before(block), paths, StrayAfter(lines, block), After(lines, block, env), required, env);
    NoChangeWithBlock(AddMounts(contents, required, env).contents, required, env);
  }

  /** For one path: a second call reports no change exactly when the entry as it is read back
      covers the path and no stray read-only line spoils it, or it does not cover the path and
      a writable entry after it does. */
  lemma OneMountServes(contents: string, path: string, env: Environment)
    requires Writes(path)
    requires AddMounts(contents, [path], env).Edited? && AddMounts(contents, [path], env).changed
    ensures var lines := Text.Split(contents, '\n'); var block := ParseBlock(lines, env);
      var edited := AddMounts(contents, [path], env).contents;
      (AddMounts(edited, [path], env) == Edited(edited, false)) <==>
        if AddsCover(path, path, env) then StrayAfter(lines, block) != Some(false)
        else IsServed(After(lines, block, env), Resolve(path, env), env)
  {
    hide Text.Split, Text.Join, AddMounts, ParseBlock, Resolve, IsServed, AllHeld, AllServed, AddsCover, StrayAfter, After, PendingOf;
    var lines := Text.Split(contents, '\n');
    var block, paths := ParseBlock(lines, env), PendingOf(lines, [path], env);
    AddedMountsServe(contents, [path], env);
    PendingAlone(contents, path, env);
    HeldAlone(path, StrayAfter(lines, block), After(lines, block, env), env);
    ResolvedAgain(path, env);
    HeldAlone(Resolve(path, env), StrayAfter(lines, block), After(lines, block, env), env);
  }

  lemma PendingAlone(contents: string, path: string, env: Environment)
    requires AddMounts(contents, [path], env).Edited? && AddMounts(contents, [path], env).changed
    ensures var paths := PendingOf(Text.Split(contents, '\n'), [path], env); paths == [path] || paths == [Resolve(path, env)]
  {
    hide Text.Split, Text.Join, ParseBlock, AddedLines, Resolve, Uncovered, FirstRefusal, FirstCover;
    var block := ParseBlock(Text.Split(contents, '\n'), env);
    if block.Block? { OnePending(block.entries, path, env); }
  }

  lemma HeldAlone(path: string, stray: Option<bool>, after: seq<Entry>, env: Environment)
    ensures AllHeld([path], stray, after, env) <==>
      if AddsCover(path, path, env) then stray != Some(false) else IsServed(after, Resolve(path, env), env)
  {
    hide AddsCover, IsServed, Resolve;
    var paths := [path];
    assert AllHeld(paths, stray, after, env) <==> IsHeld(paths, stray, after, paths[0], env);
    assert AddsCover(paths[0], paths[0], env) <==> AddsCover(path, path, env);
  }

  lemma OnePending(entries: seq<Entry>, path: string, env: Environment)
    ensures Uncovered(entries, [path], env) == if FirstCover(entries, Resolve(path, env), env).None? then [Resolve(path, env)] else []
    ensures FirstCover(entries, Resolve(path, env), env).None? ==> FirstRefusal(entries, [path], env).None?
  {
    hide Resolve, FirstCover;
    assert [path][..0] == [];
  }

  lemma ResolvedAgain(path: string, env: Environment)
    requires Writes(path)
    ensures Resolve(Resolve(path, env), env) == Resolve(path, env)
    ensures AddsCover(Resolve(path, env), Resolve(path, env), env) <==> AddsCover(path, path, env)
  {
    hide Resolve, MountCovers, NormalizeLocation;
    CleanWrites(path, env);
  }

  /** When the added entries cover their own paths, only a stray read-only line can make the
      second call report something, and exactly when no other added entry covers that path. */
  lemma CoveringMountsServe(contents: string, required: seq<string>, env: Environment)
    requires AllWrite(required) && forall i :: 0 <= i < |required| ==> AddsCover(required[i], required[i], env)
    requires AddMounts(contents, required, env).Edited? && AddMounts(contents, required, env).changed
    ensures var lines := Text.Split(contents, '\n'); var paths := PendingOf(lines, required, env);
      var edited := AddMounts(contents, required, env).contents;
      (AddMounts(edited, required, env) == Edited(edited, false))
      <==> paths != [] && !IsSpoiled(paths, StrayAfter(lines, ParseBlock(lines, env)), env)
  {
    hide Text.Split, Text.Join, AddMounts, ParseBlock, AddedLines, Names, FirstCover, Resolve, IsServed, AddsCover, IsHeld, AllHeld, IsSpoiled,
         StrayAfter, After, Writes;
    var lines := Text.Split(contents, '\n');
    AddedMountsServe(contents, required, env);
    EditedLines(contents, required, env);
    var block, paths := ParseBlock(lines, env), PendingOf(lines, required, env);
    forall j | 0 <= j < |paths|
      ensures AddsCover(paths[j], paths[j], env)
    {
      var i := PendingIsRequired(Before(block), paths, required, j, env);
      SameCover(required[i], paths[j], env);
    }
    HeldUnlessSpoiled(paths, StrayAfter(lines, block), After(lines, block, env), env);
  }

  lemma SameCover(a: string, b: string, env: Environment)
    requires Resolve(a, env) == Resolve(b, env)
    ensures AddsCover(a, a, env) <==> AddsCover(b, b, env)
  {}

  // ---------------------------------------------------------------------------
  // Nothing else changes

  function Cut(lines: seq<string>, at: nat, n: nat): seq<string>
    requires at + n <= |lines|
  {
    lines[..at] + lines[at + n..]
  }

  /** Deleting the added lines gives back the file: as it was when there was a block; with an
      open list in place of the inline empty one; and without a block, up to one blank line
      at its end. */
  lemma DeletingRestores(lines: seq<string>, paths: seq<string>, env: Environment)
    requires lines != []
    ensures var block := ParseBlock(lines, env); var after := AddedLines(lines, block, paths); var n := |FormatMounts(paths)|;
      match block
      case NoBlock => |Spaced(lines)| + 1 + n == |after| && Cut(after, |Spaced(lines)|, 1 + n) == Spaced(lines)
      case Block(start, inlineEmpty, _, _, last) =>
        if inlineEmpty then start + 1 + n <= |after| && Cut(after, start + 1, n) == lines[start := "mounts:"]
        else start + 1 + last + n <= |after| && Cut(after, start + 1 + last, n) == lines
  {
    hide ParseBlock, FormatMounts, Spaced, Cut;
    var block, added := ParseBlock(lines, env), FormatMounts(paths);
    match block
    case NoBlock =>
      var spaced := Spaced(lines);
      assert spaced + ["mounts:"] + added == spaced + (["mounts:"] + added) + [];
      CutInserted(spaced, ["mounts:"] + added, []);
      assert spaced + [] == spaced;
    case Block(start, inlineEmpty, _, _, last) =>
      if inlineEmpty {
        InlineOpened(lines, start, added);
      } else {
        var at := start + 1 + last;
        CutInserted(lines[..at], added, lines[at..]);
        assert lines[..at] + lines[at..] == lines;
      }
  }

  lemma CutInserted(front: seq<string>, added: seq<string>, back: seq<string>)
    ensures Cut(front + added + back, |front|, |added|) == front + back
  {
    var all := front + added + back;
    assert all[..|front|] == front && all[|front| + |added|..] == back;
  }

  lemma InlineOpened(lines: seq<string>, start: nat, added: seq<string>)
    requires start < |lines|
    ensures var after := lines[..start] + (["mounts:"] + added) + lines[start + 1..];
      start + 1 + |added| <= |after| && Cut(after, start + 1, |added|) == lines[start := "mounts:"]
  {
    hide Cut;
    var front, back := lines[..start] + ["mounts:"], lines[start + 1..];
    assert lines[..start] + (["mounts:"] + added) + back == front + added + back;
    CutInserted(front, added, back);
    assert front + back == lines[start := "mounts:"];
  }

  // ---------------------------------------------------------------------------
  // A file that is spoiled

  lemma StrayExampleLines()
    ensures Text.Split("mounts:\n  writable: no", '\n') == ["mounts:", "  writable: no"]
    ensures IsWritable("  writable: no") && !IsLocation("  writable: no") && !WritableOf("  writable: no") && !EndsBlock("  writable: no")
  {
    hide TrimSpace, Text.Split;
    StrayExampleText();
    Text.SplitPieces("mounts:", '\n');
    Text.SplitPieces("  writable: no", '\n');
    Text.SplitConcat("mounts:", '\n', "  writable: no");
    TrimPadded("  ", "writable: no", "");
    TrimPadded(" ", "no", "");
  }

  lemma StrayExampleText()
    ensures "mounts:\n  writable: no" == "mounts:" + ['\n'] + "  writable: no"
    ensures '\n' !in "mounts:" && '\n' !in "  writable: no"
    ensures var t := "writable: no";
      && "  writable: no" == "  " + t + "" && IsTrimmed(t) && WRITABLE <= t && t[|WRITABLE|..] == " " + "no" + ""
      && !(LOCATION <= t) && !("#" <= t)
    ensures AllSpace("  ") && AllSpace("") && AllSpace(" ") && IsTrimmed("no") && !IsTrue("no")
  {
    var t := "writable: no";
    assert t == WRITABLE + (" " + "no");
  }

  lemma NotServedByNone(path: string, env: Environment)
    ensures !IsServed([], Resolve(path, env), env)
  {}

  lemma StrayOne(line: string)
    requires IsWritable(line) && !IsLocation(line)
    ensures Stray([line]) == Some(WritableOf(line))
  {
    hide IsWritable, IsLocation, WritableOf;
    assert [line][1..] == [];
  }

  lemma ShortPathWrites()
    ensures Writes("/a")
  {
    hide Paths.Clean;
    assert "/a" == "/" + "a";
    Paths.OneElement("a");
  }

  /** With a writable line under no location, the first call adds the mount and that line
      makes it read-only; the second call refuses it. */
  lemma StraySpoils(path: string, env: Environment)
    requires Writes(path)
    ensures var first := AddMounts("mounts:\n  writable: no", [path], env);
      first.Edited? && first.changed && AddMounts(first.contents, [path], env) != Edited(first.contents, false)
  {
    var contents, required := "mounts:\n  writable: no", [path];
    StrayExampleLines();
    StartLines();
    hide Text.Split, Text.Join, IsWritable, IsLocation, WritableOf, EndsBlock, IsBlockStart, IsEmptyBlock, Writes, Resolve,
         AddedLines, MountCovers;
    var lines := Text.Split(contents, '\n');
    var line := lines[1];
    var block := ParseBlock(lines, env);
    ReadsBlock([], "mounts:", [line], [], env);
    assert [] + ["mounts:"] + [line] + [] == lines;
    EntriesOne([], line, env);
    assert block == Block(0, false, [line], [], LastLine([line], env));
    LastLineFacts([line], env);
    OnePending([], path, env);
    NothingCovers(env);
    StrayOne(line);
    OneMountServes(contents, path, env);
    NotServedByNone(path, env);
  }

  /** The same, for the path /a. */
  lemma StrayExample(env: Environment)
    ensures var first := AddMounts("mounts:\n  writable: no", ["/a"], env);
      first.Edited? && first.changed && AddMounts(first.contents, ["/a"], env) != Edited(first.contents, false)
  {
    hide AddMounts, Writes;
    ShortPathWrites();
    StraySpoils("/a", env);
  }

  // ---------------------------------------------------------------------------
  // Locations below the home directory

  /** The text of a location without white space and quotes around it. */
  function Bare(value: string): string {
    TrimQuotesRight(TrimQuotesLeft(TrimSpace(value)))
  }

  predicate AllQuotes(s: string) {
    forall i :: 0 <= i < |s| ==> s[i] == '"' || s[i] == '\''
  }

  lemma {:induction false} QuotesLeft(quotes: string, rest: string)
    requires AllQuotes(quotes) && (rest != "" ==> !IsQuote(rest[0]))
    ensures TrimQuotesLeft(quotes + rest) == rest
  {
    if quotes == "" {
      assert quotes + rest == rest;
    } else {
      assert (quotes + rest)[1..] == quotes[1..] + rest;
      QuotesLeft(quotes[1..], rest);
    }
  }

  lemma {:induction false} QuotesRight(rest: string, quotes: string)
    requires AllQuotes(quotes) && (rest != "" ==> !IsQuote(rest[|rest| - 1]))
    ensures TrimQuotesRight(rest + quotes) == rest
  {
    if quotes == "" {
      assert rest + quotes == rest;
    } else {
      assert (rest + quotes)[..|rest + quotes| - 1] == rest + quotes[..|quotes| - 1];
      QuotesRight(rest, quotes[..|quotes| - 1]);
    }
  }

  /** A rooted location stands for its path, without the white space around it and the quotes
      inside that. */
  lemma QuotesAreTakenOff(before: string, left: string, path: string, right: string, after: string, env: Environment)
    requires AllSpace(before) && AllSpace(after) && AllQuotes(left) && AllQuotes(right) && IsTrimmed(left + path + right)
    requires Paths.IsRooted(path) && path[|path| - 1] != '"' && path[|path| - 1] != '\''
    ensures NormalizeLocation(before + (left + path + right) + after, env) == Paths.Clean(path)
  {
    hide TrimSpace, TrimQuotesLeft, TrimQuotesRight, Paths.Clean;
    TrimPadded(before, left + path + right, after);
    SlashIsInk();
    assert left + path + right == left + (path + right);
    QuotesLeft(left, path + right);
    QuotesRight(path, right);
    assert Expand(path, env) == path;
    Paths.CleanTwice(path);
  }

  predicate IsBelowHome(bare: string) {
    bare == "~" || "~/" <= bare
  }

  lemma RootedConcat(home: string, rest: string)
    requires Paths.IsRooted(home)
    ensures Paths.IsRooted(home + rest) && home != ""
  {}

  lemma AbsOfClean(path: string, directory: string)
    requires Paths.IsRooted(path)
    ensures Paths.Clean(Paths.Abs(Paths.Clean(path), directory)) == Paths.Clean(path)
  {
    hide Paths.Clean;
    Paths.CleanTwice(path);
  }

  /** A location that starts with a tilde stands for the home directory joined with what
      follows the tilde, except for a tilde alone: that one stands for an element named ~
      below the home directory. */
  lemma TildeIsHomeExactly(value: string, env: Environment)
    requires env.home.Some? && Paths.IsRooted(env.home.value) && IsBelowHome(Bare(value))
    ensures NormalizeLocation(value, env) == Paths.Clean(env.home.value + Bare(value)[1..]) <==> Bare(value) != "~"
    ensures Bare(value) == "~" ==> NormalizeLocation(value, env) == Paths.Clean(env.home.value + "/~")
  {
    hide Paths.Clean, Paths.Abs, Bare, Paths.Parts;
    var home, bare := env.home.value, Bare(value);
    BareIsExpanded(value, env);
    if bare == "~" {
      assert bare[1..] == "" && home + "" == home;
      assert home + "/~" == home + "/" + "~";
      RootedConcat(home, "/" + "~");
      assert home + ("/" + "~") == home + "/~";
      AbsOfClean(home + "/~", env.directory);
      Paths.PartsSnoc(home, "~");
      Paths.CleanIffParts(home + "/~", home);
      assert |Paths.Push(Paths.Parts(home), "~", true)| == |Paths.Parts(home)| + 1;
    } else {
      var rest := bare[2..];
      assert bare[1..] == "/" + rest;
      RootedConcat(home, "/" + rest);
      assert home + ("/" + rest) == home + "/" + rest;
      AbsOfClean(home + "/" + rest, env.directory);
    }
  }

  // What the expansion of such a location is joined from.
  lemma BareIsExpanded(value: string, env: Environment)
    requires env.home.Some? && env.home.value != "" && IsBelowHome(Bare(value))
    ensures var bare := Bare(value);
      NormalizeLocation(value, env)
      == Paths.Clean(Paths.Abs(Paths.Clean(env.home.value + "/" + (if bare == "~" then "~" else bare[2..])), env.directory))
  {
    hide Paths.Clean, Paths.Abs, TrimSpace;
  }

  /** The lone tilde, at a concrete home directory. */
  lemma LoneTilde(directory: string)
    ensures NormalizeLocation("~", Environment(directory, Some("/home"))) == "/home/~"
  {
    hide Paths.Clean, Paths.Abs, TrimSpace, Paths.Parts;
    TildeText();
    TrimOfTrimmed("~");
    QuotesKeep("~");
    TildeIsHomeExactly("~", Environment(directory, Some("/home")));
    assert "/home" == "/" + "home";
    Paths.OneElement("home");
    Paths.PartsSnoc("/home", "~");
    assert "/home" + "/~" == "/home/~" && "/home" + "/" + "~" == "/home/~";
    TwoElements("home", "~");
  }

  lemma TildeText()
    ensures IsTrimmed("~") && !IsQuote('~') && "~" != ""
  {}

  lemma TwoElements(a: string, b: string)
    requires Paths.Parts("/" + a + "/" + b) == [a, b]
    ensures Paths.Clean("/" + a + "/" + b) == "/" + a + "/" + b
  {
    hide Paths.Parts;
    assert [a, b][1..] == [b];
    assert Text.Join([a, b], '/') == a + ['/'] + b;
    assert "/" + (a + ['/'] + b) == "/" + a + "/" + b;
  }

  // ---------------------------------------------------------------------------
  // A path that does not read back

  /** The entry of the path "/a '", as it is read back, does not cover the path, so a second
      call does not take it as served. */
  lemma UnstableExample(env: Environment)
    ensures var path := "/a '"; var first := AddMounts("mounts:", [path], env);
      && !AddsCover(path, path, env)
      && first.Edited? && first.changed && AddMounts(first.contents, [path], env) != Edited(first.contents, false)
  {
    hide AddMounts, MountCovers, NormalizeLocation, Resolve;
    UnstableNames(env);
    NotCovered(env);
    UncoveredIsAddedAgain("/a '", env);
  }

  lemma UncoveredIsAddedAgain(path: string, env: Environment)
    requires Writes(path) && !AddsCover(path, path, env)
    ensures var first := AddMounts("mounts:", [path], env);
      first.Edited? && first.changed && AddMounts(first.contents, [path], env) != Edited(first.contents, false)
  {
    var contents := "mounts:";
    StartLines();
    Text.SplitPieces(contents, '\n');
    hide Text.Split, Text.Join, EndsBlock, IsBlockStart, IsEmptyBlock, Writes, Resolve, AddedLines, AddsCover, MountCovers;
    var lines := Text.Split(contents, '\n');
    var block := ParseBlock(lines, env);
    ReadsBlock([], "mounts:", [], [], env);
    assert [] + ["mounts:"] + [] + [] == lines;
    OnePending([], path, env);
    NothingCovers(env);
    OneMountServes(contents, path, env);
    NotServedByNone(path, env);
  }

  lemma UnstableNames(env: Environment)
    ensures var path := "/a '";
      && Paths.Clean(path) == path && Resolve(path, env) == path
      && NormalizeLocation(path, env) == "/a " && NormalizeLocation("/a ", env) == "/a"
      && Paths.Parts("/a ") == ["a "] && Paths.Parts("/a") == ["a"]
  {
    hide TrimSpace, Paths.Clean, Paths.Parts;
    UnstableText();
    Paths.OneElement("a '");
    Paths.OneElement("a ");
    Paths.OneElement("a");
    TrimOfTrimmed("/a '");
    TrimPadded("", "/a", " ");
    QuotesKeep("/a");
    OneQuote("/a ");
    assert Expand("/a ", env) == "/a " && Expand("/a", env) == "/a";
  }

  lemma UnstableText()
    ensures "/a '" == "/" + "a '" && "/a " == "/" + "a " && "/a" == "/" + "a" && "/a " == "" + "/a" + " "
    ensures "/a '" == "/a " + ['\'']
    ensures Paths.IsProper("a '") && Paths.IsProper("a ") && Paths.IsProper("a")
    ensures IsTrimmed("/a '") && IsTrimmed("/a") && AllSpace(" ") && AllSpace("")
  {}

  lemma OneQuote(s: string)
    requires s != "" && !IsQuote(s[0]) && !IsQuote(s[|s| - 1])
    ensures TrimQuotesRight(TrimQuotesLeft(s + ['\''])) == s
  {
    var quoted := s + ['\''];
    assert quoted[..|quoted| - 1] == s;
  }

  lemma NotCovered(env: Environment)
    ensures Writes("/a '") && !AddsCover("/a '", "/a '", env)
  {
    hide NormalizeLocation, Resolve, Paths.Parts, Paths.Rel, Paths.IsInside, Paths.Clean;
    UnstableNames(env);
    Paths.InsideIffPrefix("/a", "/a ");
    assert ["a"] != ["a "] && ["a"][0] != ["a "][0];
  }
}
