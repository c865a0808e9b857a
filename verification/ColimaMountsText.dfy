/** What adding mounts does to a file, line by line and without the editor's own notions of a
    block. */
module ColimaMountsText {
  import opened Common
  import opened GoText
  import opened ColimaMounts
  import opened ColimaMountsKept
  import Text
  import Paths

  // ---------------------------------------------------------------------------
  // Lines

  predicate Opens(line: string) {
    TrimSpace(line) == "mounts:" || TrimSpace(line) == "mounts: []"
  }

  ghost predicate NoneOpens(lines: seq<string>) {
    forall i :: 0 <= i < |lines| ==> !Opens(lines[i])
  }

  /** Blank, a comment even at the left margin, or indented. */
  predicate Belongs(line: string) {
    TrimSpace(line) == "" || "#" <= TrimSpace(line) || line == "" || line[0] == ' ' || line[0] == '\t'
  }

  predicate NamesLocation(line: string) {
    "- location:" <= TrimSpace(line)
  }

  predicate NamesFlag(line: string) {
    "writable:" <= TrimSpace(line)
  }

  predicate FlagOf(line: string)
    requires NamesFlag(line)
  {
    var value := TrimSpace(TrimSpace(line)[9..]);
    |value| == 4 && value[0] in {'t', 'T'} && value[1] in {'r', 'R'} && value[2] in {'u', 'U'} && value[3] in {'e', 'E'}
  }

  /** The last flag before the next location; a location without one is read-only. */
  predicate FlagBelow(lines: seq<string>) {
    if lines == [] || NamesLocation(lines[0]) then false
    else if NamesFlag(lines[0]) && NoFlagBelow(lines[1..]) then FlagOf(lines[0])
    else FlagBelow(lines[1..])
  }

  predicate NoFlagBelow(lines: seq<string>) {
    lines == [] || NamesLocation(lines[0]) || (!NamesFlag(lines[0]) && NoFlagBelow(lines[1..]))
  }

  /** One entry for each location, with the last flag below it. */
  function EntriesOf(lines: seq<string>, env: Environment): seq<Entry>
    decreases |lines|
  {
    if lines == [] then []
    else if NamesLocation(lines[0]) then
      [Entry(NormalizeLocation(TrimSpace(TrimSpace(lines[0])[11..]), env), FlagBelow(lines[1..]))] + EntriesOf(lines[1..], env)
    else EntriesOf(lines[1..], env)
  }

  function EntryLines(paths: seq<string>): (lines: seq<string>)
    ensures |lines| == 2 * |paths|
  {
    seq(2 * |paths|, k requires 0 <= k < 2 * |paths| => if k % 2 == 0 then "  - location: " + paths[k / 2] else "    writable: true")
  }

  function Resolved(paths: seq<string>, env: Environment): (all: seq<string>)
    ensures |all| == |paths|
  {
    seq(|paths|, i requires 0 <= i < |paths| => Resolve(paths[i], env))
  }

  // ---------------------------------------------------------------------------
  // The editor reads the same

  lemma SameLines(line: string)
    ensures IsBlockStart(line) || IsEmptyBlock(line) <==> Opens(line)
    ensures IsBlockStart(line) <==> TrimSpace(line) == "mounts:"
    ensures EndsBlock(line) <==> !Belongs(line)
    ensures IsLocation(line) <==> NamesLocation(line)
    ensures IsWritable(line) <==> NamesFlag(line)
    ensures IsWritable(line) ==> (WritableOf(line) <==> FlagOf(line))
  {
    hide TrimSpace;
    assert "mounts:" != "mounts: []";
    if IsWritable(line) { SameFlag(TrimSpace(TrimSpace(line)[9..])); }
  }

  lemma SameFlag(value: string)
    ensures IsTrue(value) <==>
      |value| == 4 && value[0] in {'t', 'T'} && value[1] in {'r', 'R'} && value[2] in {'u', 'U'} && value[3] in {'e', 'E'}
  {}

  lemma {:induction false} StrayIsFlag(lines: seq<string>)
    ensures Stray(lines).None? <==> NoFlagBelow(lines)
    ensures Stray(lines) == Some(true) <==> FlagBelow(lines)
    decreases |lines|
  {
    hide IsLocation, IsWritable, WritableOf, NamesLocation, NamesFlag, FlagOf;
    if lines != [] {
      SameLines(lines[0]);
      StrayIsFlag(lines[1..]);
    }
  }

  /** The entries of a block are its locations, each with the last flag below it. */
  lemma {:induction false} EntriesAre(lines: seq<string>, env: Environment)
    ensures Entries([], lines, env) == EntriesOf(lines, env)
    decreases |lines|
  {
    hide IsLocation, IsWritable, WritableOf, NamesLocation, NamesFlag, Entries, NormalizeLocation, FlagBelow, Stray, TrimSpace;
    if lines == [] {
      NoLines([], env);
    } else {
      var line, rest := lines[0], lines[1..];
      assert lines == [line] + rest;
      EntriesAre(rest, env);
      EntriesConcat([], [line], rest, env);
      EntriesOne([], line, env);
      SameLines(line);
      if IsLocation(line) {
        LocationText11(line, env);
        var entry := Entry(LocationOf(line, env), false);
        assert ReadEntry([], line, env) == [entry];
        EntriesOnto([entry], rest, env);
        StrayIsFlag(rest);
      }
    }
  }

  lemma LocationText11(line: string, env: Environment)
    requires IsLocation(line)
    ensures |TrimSpace(line)| >= 11 && LocationOf(line, env) == NormalizeLocation(TrimSpace(TrimSpace(line)[11..]), env)
  {
    hide TrimSpace, NormalizeLocation;
  }

  // ---------------------------------------------------------------------------
  // The added lines

  lemma {:induction false} FormattedLines(paths: seq<string>)
    requires forall i :: 0 <= i < |paths| ==> Paths.Clean(paths[i]) == paths[i]
    ensures FormatMounts(paths) == EntryLines(paths)
  {
    hide Paths.Clean, EntryLines;
    if paths == [] {
      assert EntryLines(paths) == [];
    } else {
      FormattedLines(paths[..|paths| - 1]);
      LastEntryLines(paths);
    }
  }

  lemma LastEntryLines(paths: seq<string>)
    requires paths != []
    ensures var n := |paths| - 1;
      EntryLines(paths) == EntryLines(paths[..n]) + ["  - location: " + paths[n], "    writable: true"]
  {
    var n, all := |paths| - 1, EntryLines(paths);
    forall k | 0 <= k < 2 * n
      ensures all[k] == EntryLines(paths[..n])[k]
    {
      assert paths[..n][k / 2] == paths[k / 2];
    }
  }

  lemma ResolvedIsClean(path: string, env: Environment)
    requires Paths.IsRooted(env.directory)
    ensures Paths.Clean(Resolve(path, env)) == Resolve(path, env)
  {
    hide Paths.Clean;
    Paths.AbsIsRooted(path, env.directory);
    Paths.CleanTwice(Paths.Abs(path, env.directory));
  }

  lemma {:induction false} NoneCovered(required: seq<string>, env: Environment)
    ensures Uncovered([], required, env) == Resolved(required, env) && FirstRefusal([], required, env).None?
  {
    hide Resolve;
    if required != [] { NoneCovered(required[..|required| - 1], env); }
  }

  lemma ResolvedFormat(required: seq<string>, env: Environment)
    requires Paths.IsRooted(env.directory)
    ensures FormatMounts(Resolved(required, env)) == EntryLines(Resolved(required, env))
  {
    hide Resolve, Paths.Clean;
    forall i | 0 <= i < |required|
      ensures Paths.Clean(Resolved(required, env)[i]) == Resolved(required, env)[i]
    {
      ResolvedIsClean(required[i], env);
    }
    FormattedLines(Resolved(required, env));
  }

  lemma FirstOpening(front: seq<string>, line: string, back: seq<string>)
    requires NoneOpens(front) && Opens(line)
    ensures FindBlock(front + [line] + back) == |front|
  {
    hide IsBlockStart, IsEmptyBlock, Opens;
    var lines := front + [line] + back;
    forall j | 0 <= j <= |front|
      ensures IsBlockStart(lines[j]) || IsEmptyBlock(lines[j]) <==> Opens(lines[j])
    {
      SameLines(lines[j]);
    }
    FindBlockIs(lines, |front|);
  }

  /** An inline empty list is replaced by an open one with the required paths. */
  lemma InlineListOpens(front: seq<string>, line: string, back: seq<string>, required: seq<string>, env: Environment)
    requires OneLiners(front + [line] + back) && NoneOpens(front) && TrimSpace(line) == "mounts: []"
    requires Paths.IsRooted(env.directory) && required != []
    ensures AddMounts(Text.Join(front + [line] + back, '\n'), required, env)
         == Edited(Text.Join(front + ["mounts:"] + EntryLines(Resolved(required, env)) + back, '\n'), true)
  {
    hide Text.Split, Text.Join, IsBlockStart, IsEmptyBlock, FindBlock, FormatMounts, EntryLines, Uncovered, FirstRefusal, Resolved, TrimSpace,
         Entries, LastLine, Region;
    var lines := front + [line] + back;
    Text.SplitOfJoin(lines, '\n');
    FirstOpening(front, line, back);
    SameLines(line);
    assert "mounts:" != "mounts: []";
    assert ParseBlock(lines, env) == Block(|front|, true, [], [], 0);
    NoneCovered(required, env);
    ResolvedFormat(required, env);
    var added := EntryLines(Resolved(required, env));
    assert lines[..|front|] == front && lines[|front| + 1..] == back;
    assert front + (["mounts:"] + added) + back == front + ["mounts:"] + added + back;
  }

  /** A file without a block gets one at its end, after a blank line. */
  lemma BlockIsAppended(lines: seq<string>, required: seq<string>, env: Environment)
    requires lines != [] && OneLiners(lines) && NoneOpens(lines) && required != []
    requires forall i :: 0 <= i < |required| ==> Paths.Clean(required[i]) == required[i]
    ensures AddMounts(Text.Join(lines, '\n'), required, env)
         == Edited(Text.Join(lines + (if lines[|lines| - 1] == "" then [] else [""]) + ["mounts:"] + EntryLines(required), '\n'), true)
  {
    hide Text.Split, Text.Join, ParseBlock, FormatMounts, EntryLines, Opens, Paths.Clean;
    Text.SplitOfJoin(lines, '\n');
    NothingOpens(lines, env);
    FormattedLines(required);
    assert lines + [] == lines;
  }

  lemma NothingOpens(lines: seq<string>, env: Environment)
    requires NoneOpens(lines)
    ensures ParseBlock(lines, env).NoBlock?
  {
    hide IsBlockStart, IsEmptyBlock, Opens, FindBlock;
    forall j | 0 <= j < |lines|
      ensures !IsBlockStart(lines[j]) && !IsEmptyBlock(lines[j])
    {
      SameLines(lines[j]);
    }
    FindBlockIs(lines, |lines|);
  }

  // ---------------------------------------------------------------------------
  // An open block

  /** The lines up to which the entries of a block go: the last location, or the last flag
      below one. */
  ghost predicate EntriesEnd(region: seq<string>, n: nat) {
    && n <= |region|
    && (forall k :: n <= k < |region| ==> !NamesLocation(region[k]))
    && (if n == 0 then true
        else
          && (exists k :: 0 <= k < n && NamesLocation(region[k]))
          && (NamesLocation(region[n - 1]) || NamesFlag(region[n - 1]))
          && (forall k :: n <= k < |region| ==> !NamesFlag(region[k])))
  }

  lemma {:induction false} LastLineIs(region: seq<string>, env: Environment)
    ensures EntriesEnd(region, LastLine(region, env))
    ensures LastLine(region, env) > 0 <==> Entries([], region, env) != []
  {
    hide IsLocation, IsWritable, NamesLocation, NamesFlag, LocationOf, WritableOf, EntriesEnd;
    if region == [] {
      NoEntriesEnd();
    } else {
      var front, last := region[..|region| - 1], region[|region| - 1];
      assert region == front + [last];
      LastLineIs(front, env);
      SameLines(last);
      EndAfter(front, LastLine(front, env), last);
    }
  }

  lemma NoEntriesEnd()
    ensures EntriesEnd([], 0)
  {}

  lemma EndAfter(front: seq<string>, n: nat, last: string)
    requires EntriesEnd(front, n)
    ensures NamesLocation(last) || (n > 0 && NamesFlag(last)) ==> EntriesEnd(front + [last], |front| + 1)
    ensures !NamesLocation(last) && !(n > 0 && NamesFlag(last)) ==> EntriesEnd(front + [last], n)
  {
    hide NamesLocation, NamesFlag;
    var lines := front + [last];
    assert lines[|front|] == last && forall k :: 0 <= k < |front| ==> lines[k] == front[k];
  }

  /** The first entry that covers a path is the k-th, and read-only. */
  ghost predicate Refuses(entries: seq<Entry>, k: nat, path: string, env: Environment) {
    && k < |entries| && MountCovers(entries[k].location, path, env) && !entries[k].writable
    && forall i :: 0 <= i < k ==> !MountCovers(entries[i].location, path, env)
  }

  lemma {:induction false} FirstCoverIs(entries: seq<Entry>, path: string, env: Environment) returns (k: nat)
    requires FirstCover(entries, path, env).Some?
    ensures k < |entries| && FirstCover(entries, path, env) == Some(entries[k]) && MountCovers(entries[k].location, path, env)
    ensures forall i :: 0 <= i < k ==> !MountCovers(entries[i].location, path, env)
  {
    hide MountCovers;
    if MountCovers(entries[0].location, path, env) {
      k := 0;
    } else {
      k := FirstCoverIs(entries[1..], path, env);
      k := k + 1;
      assert forall i :: 1 <= i < k ==> entries[i] == entries[1..][i - 1];
    }
  }

  /** A refusal names the first required path whose first covering location is read-only, and
      that location. */
  lemma {:induction false} RefusalIs(entries: seq<Entry>, required: seq<string>, env: Environment) returns (i: nat, k: nat)
    requires FirstRefusal(entries, required, env).Some?
    ensures i < |required| && Refuses(entries, k, Resolve(required[i], env), env)
    ensures FirstRefusal(entries, required, env) == Some(Refusal(Resolve(required[i], env), entries[k].location))
    ensures forall j, m :: 0 <= j < i && 0 <= m < |entries| ==> !Refuses(entries, m, Resolve(required[j], env), env)
  {
    hide MountCovers, Resolve, FirstCover;
    var front := required[..|required| - 1];
    if FirstRefusal(entries, front, env).Some? {
      i, k := RefusalIs(entries, front, env);
    } else {
      i := |required| - 1;
      k := FirstCoverIs(entries, Resolve(required[i], env), env);
      NoRefusals(entries, front, env);
    }
  }

  /** Without a refusal no required path is first covered by a read-only location. */
  lemma {:induction false} NoRefusals(entries: seq<Entry>, required: seq<string>, env: Environment)
    requires FirstRefusal(entries, required, env).None?
    ensures forall j, m :: 0 <= j < |required| && 0 <= m < |entries| ==> !Refuses(entries, m, Resolve(required[j], env), env)
  {
    hide MountCovers, Resolve, FirstCover, Refuses;
    if required != [] {
      var last := |required| - 1;
      NoRefusals(entries, required[..last], env);
      forall m | 0 <= m < |entries|
        ensures !Refuses(entries, m, Resolve(required[last], env), env)
      {
        ReadOnlyIsRefused(entries, m, Resolve(required[last], env), env);
      }
    }
  }

  lemma {:induction false} ReadOnlyIsRefused(entries: seq<Entry>, m: nat, path: string, env: Environment)
    ensures Refuses(entries, m, path, env) ==> FirstCover(entries, path, env) == Some(entries[m]) && !entries[m].writable
  {
    hide MountCovers;
    if Refuses(entries, m, path, env) && m > 0 {
      ReadOnlyIsRefused(entries[1..], m - 1, path, env);
    }
  }

  /** An open block ends before the first line that does not belong to it. The paths it lacks
      are added after its last entry, and everything else stays. */
  lemma BlockIsExtended(front: seq<string>, opening: string, region: seq<string>, back: seq<string>, required: seq<string>, env: Environment)
    returns (n: nat)
    requires OneLiners(front + [opening] + region + back) && NoneOpens(front) && TrimSpace(opening) == "mounts:"
    requires forall k :: 0 <= k < |region| ==> Belongs(region[k])
    requires back != [] ==> !Belongs(back[0])
    requires Paths.IsRooted(env.directory)
    ensures EntriesEnd(region, n)
    ensures var entries := EntriesOf(region, env); var lacking := Uncovered(entries, required, env);
      AddMounts(Text.Join(front + [opening] + region + back, '\n'), required, env) ==
        if FirstRefusal(entries, required, env).Some? then ReadOnly(FirstRefusal(entries, required, env).value)
        else if lacking == [] then Edited(Text.Join(front + [opening] + region + back, '\n'), false)
        else Edited(Text.Join(front + [opening] + region[..n] + EntryLines(lacking) + region[n..] + back, '\n'), true)
  {
    hide Text.Split, Text.Join, IsBlockStart, IsEmptyBlock, FormatMounts, EntryLines, Opens, FindBlock, ParseBlock, EndsBlock, Belongs, TrimSpace,
         Uncovered, FirstRefusal, Entries, EntriesOf, LastLine, EntriesEnd;
    var lines := front + [opening] + region + back;
    Text.SplitOfJoin(lines, '\n');
    n := LastLine(region, env);
    LastLineIs(region, env);
    ParsesOpen(front, opening, region, back, env);
    EntriesAre(region, env);
    LackingFormat(EntriesOf(region, env), required, env);
    var added := FormatMounts(Uncovered(EntriesOf(region, env), required, env));
    InsertedAt(front, opening, region, back, n, added);
  }

  lemma ParsesOpen(front: seq<string>, opening: string, region: seq<string>, back: seq<string>, env: Environment)
    requires NoneOpens(front) && TrimSpace(opening) == "mounts:"
    requires forall k :: 0 <= k < |region| ==> Belongs(region[k])
    requires back != [] ==> !Belongs(back[0])
    ensures ParseBlock(front + [opening] + region + back, env)
         == Block(|front|, false, region, Entries([], region, env), LastLine(region, env))
  {
    hide IsBlockStart, IsEmptyBlock, Opens, ParseBlock, EndsBlock, Belongs, TrimSpace, Entries, LastLine;
    forall j | 0 <= j < |front|
      ensures !IsBlockStart(front[j]) && !IsEmptyBlock(front[j])
    {
      SameLines(front[j]);
    }
    SameLines(opening);
    forall k | 0 <= k < |region|
      ensures !EndsBlock(region[k])
    {
      SameLines(region[k]);
    }
    if back != [] { SameLines(back[0]); }
    ReadsBlock(front, opening, region, back, env);
  }

  lemma InsertedAt(front: seq<string>, opening: string, region: seq<string>, back: seq<string>, n: nat, added: seq<string>)
    requires n <= |region|
    ensures var lines := front + [opening] + region + back; var at := |front| + 1 + n;
      lines[..at] + added + lines[at..] == front + [opening] + region[..n] + added + region[n..] + back
  {
    var lines, at := front + [opening] + region + back, |front| + 1 + n;
    assert lines[..at] == front + [opening] + region[..n];
    assert lines[at..] == region[n..] + back;
  }

  lemma {:induction false} LackingFormat(entries: seq<Entry>, required: seq<string>, env: Environment)
    requires Paths.IsRooted(env.directory)
    ensures FormatMounts(Uncovered(entries, required, env)) == EntryLines(Uncovered(entries, required, env))
    ensures forall i :: 0 <= i < |Uncovered(entries, required, env)| ==>
      Paths.Clean(Uncovered(entries, required, env)[i]) == Uncovered(entries, required, env)[i]
  {
    hide Resolve, Paths.Clean, FirstCover, FormatMounts, EntryLines;
    if required != [] {
      LackingFormat(entries, required[..|required| - 1], env);
      ResolvedIsClean(required[|required| - 1], env);
    }
    FormattedLines(Uncovered(entries, required, env));
  }
}
