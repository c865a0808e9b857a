/** The editor of the mounts block of a Colima profile: line by line, without a YAML
    parser. The working directory and the home directory are parameters. */
module ColimaMounts {
  import opened Common
  import opened GoText
  import Text
  import Paths

  /** The process environment: a rooted working directory, and the home if it is known. */
  datatype Environment = Environment(directory: string, home: Option<string>)

  datatype Entry = Entry(location: string, writable: bool)

  // ---------------------------------------------------------------------------
  // Locations

  predicate IsQuote(c: char) {
    c == '"' || c == '\''
  }

  function TrimQuotesLeft(s: string): string {
    if s != "" && IsQuote(s[0]) then TrimQuotesLeft(s[1..]) else s
  }

  function TrimQuotesRight(s: string): string {
    if s != "" && IsQuote(s[|s| - 1]) then TrimQuotesRight(s[..|s| - 1]) else s
  }

  /** A home prefix is expanded. A lone tilde goes through the same join, and becomes an
      element of that name below the home directory. */
  function Expand(value: string, env: Environment): string {
    if (value == "~" || "~/" <= value) && env.home.Some? then
      Paths.Under(env.home.value, if "~/" <= value then value[2..] else value)
    else value
  }

  function NormalizeLocation(value: string, env: Environment): string {
    Paths.Clean(Paths.Abs(Expand(TrimQuotesRight(TrimQuotesLeft(TrimSpace(value))), env), env.directory))
  }

  predicate MountCovers(mount: string, required: string, env: Environment) {
    Paths.IsInside(Paths.Rel(NormalizeLocation(mount, env), NormalizeLocation(required, env)))
  }

  // ---------------------------------------------------------------------------
  // The block

  const LOCATION := "- location:"
  const WRITABLE := "writable:"

  predicate IsLocation(line: string) {
    LOCATION <= TrimSpace(line)
  }

  predicate IsWritable(line: string) {
    WRITABLE <= TrimSpace(line)
  }

  function Lower(c: char): char {
    if 'A' <= c <= 'Z' then c - 'A' + 'a' else c
  }

  predicate IsTrue(s: string) {
    |s| == 4 && Lower(s[0]) == 't' && Lower(s[1]) == 'r' && Lower(s[2]) == 'u' && Lower(s[3]) == 'e'
  }

  function LocationOf(line: string, env: Environment): string
    requires IsLocation(line)
  {
    NormalizeLocation(TrimSpace(TrimSpace(line)[|LOCATION|..]), env)
  }

  predicate WritableOf(line: string)
    requires IsWritable(line)
  {
    IsTrue(TrimSpace(TrimSpace(line)[|WRITABLE|..]))
  }

  /** A line at the left margin that is neither blank nor a comment ends the block. */
  predicate EndsBlock(line: string) {
    TrimSpace(line) != "" && !("#" <= TrimSpace(line)) && line != "" && line[0] != ' ' && line[0] != '\t'
  }

  predicate IsBlockStart(line: string) {
    TrimSpace(line) == "mounts:"
  }

  predicate IsEmptyBlock(line: string) {
    TrimSpace(line) == "mounts: []"
  }

  /** The index of the first line that opens the block. */
  function FindBlock(lines: seq<string>): (i: nat)
    ensures i <= |lines| && (i < |lines| ==> IsBlockStart(lines[i]) || IsEmptyBlock(lines[i]))
    ensures forall j :: 0 <= j < i ==> !IsBlockStart(lines[j]) && !IsEmptyBlock(lines[j])
  {
    if lines == [] || IsBlockStart(lines[0]) || IsEmptyBlock(lines[0]) then 0 else 1 + FindBlock(lines[1..])
  }

  /** The lines up to the end of the block. */
  function BlockLength(lines: seq<string>): (n: nat)
    ensures n <= |lines| && (n < |lines| ==> EndsBlock(lines[n]))
    ensures forall j :: 0 <= j < n ==> !EndsBlock(lines[j])
  {
    if lines == [] || EndsBlock(lines[0]) then 0 else 1 + BlockLength(lines[1..])
  }

  function ReadEntry(entries: seq<Entry>, line: string, env: Environment): seq<Entry> {
    if IsLocation(line) then entries + [Entry(LocationOf(line, env), false)]
    else if entries != [] && IsWritable(line) then
      entries[|entries| - 1 := entries[|entries| - 1].(writable := WritableOf(line))]
    else entries
  }

  /** The entries after some lines of the block. */
  function Entries(before: seq<Entry>, lines: seq<string>, env: Environment): seq<Entry> {
    if lines == [] then before else ReadEntry(Entries(before, lines[..|lines| - 1], env), lines[|lines| - 1], env)
  }

  /** How many lines the entries take, up to the last line that belongs to one. */
  function LastLine(lines: seq<string>, env: Environment): (n: nat)
    ensures n <= |lines|
  {
    if lines == [] then 0
    else if IsLocation(lines[|lines| - 1])
         || (Entries([], lines[..|lines| - 1], env) != [] && IsWritable(lines[|lines| - 1])) then |lines|
    else LastLine(lines[..|lines| - 1], env)
  }

  /** A mounts block: where it starts, whether it is an inline empty list, its lines, its
      entries and how many of its lines they take. */
  datatype Block = Block(start: nat, inlineEmpty: bool, lines: seq<string>, entries: seq<Entry>, last: nat) | NoBlock

  function Region(lines: seq<string>, start: nat): seq<string>
    requires start < |lines|
  {
    lines[start + 1..][..BlockLength(lines[start + 1..])]
  }

  function ParseBlock(lines: seq<string>, env: Environment): (block: Block)
    ensures block.Block? ==> block.start < |lines| && block.last <= |lines| - block.start - 1
  {
    var start := FindBlock(lines);
    if start == |lines| then NoBlock
    else if IsBlockStart(lines[start]) then
      var region := Region(lines, start);
      Block(start, false, region, Entries([], region, env), LastLine(region, env))
    else Block(start, true, [], [], 0)
  }

  /** The lines of a block, its entries, and the last line of them. */
  method ParseEntries(rest: seq<string>, env: Environment) returns (region: seq<string>, entries: seq<Entry>, last: nat)
    ensures region == rest[..BlockLength(rest)] && entries == Entries([], region, env) && last == LastLine(region, env)
  {
    hide IsLocation, IsWritable, EndsBlock, LocationOf, WritableOf, BlockLength;
    var index := 0;
    entries, last := [], 0;
    while index < |rest| && !EndsBlock(rest[index])
      invariant index <= |rest|
      invariant forall j :: 0 <= j < index ==> !EndsBlock(rest[j])
      invariant entries == Entries([], rest[..index], env)
      invariant last == LastLine(rest[..index], env)
    {
      var line := rest[index];
      ghost var seen := rest[..index + 1];
      assert seen[..|seen| - 1] == rest[..index] && seen[|seen| - 1] == line;
      if IsLocation(line) {
        entries := entries + [Entry(LocationOf(line, env), false)];
        last := index + 1;
      } else if entries != [] && IsWritable(line) {
        entries := entries[|entries| - 1 := entries[|entries| - 1].(writable := WritableOf(line))];
        last := index + 1;
      }
      index := index + 1;
    }
    assert index == BlockLength(rest) by { BlockLengthIs(rest, index); }
    region := rest[..index];
  }

  lemma BlockLengthIs(rest: seq<string>, n: nat)
    requires n <= |rest| && (n < |rest| ==> EndsBlock(rest[n])) && forall j :: 0 <= j < n ==> !EndsBlock(rest[j])
    ensures BlockLength(rest) == n
  {
    hide EndsBlock;
    var k := BlockLength(rest);
    assert k < |rest| ==> EndsBlock(rest[k]);
  }

  lemma FindBlockIs(lines: seq<string>, n: nat)
    requires n <= |lines| && (n < |lines| ==> IsBlockStart(lines[n]) || IsEmptyBlock(lines[n]))
    requires forall j :: 0 <= j < n ==> !IsBlockStart(lines[j]) && !IsEmptyBlock(lines[j])
    ensures FindBlock(lines) == n
  {
    hide IsBlockStart, IsEmptyBlock;
    var k := FindBlock(lines);
    assert k < |lines| ==> IsBlockStart(lines[k]) || IsEmptyBlock(lines[k]);
  }

  method ParseColimaMountBlock(lines: seq<string>, env: Environment) returns (block: Block)
    ensures block == ParseBlock(lines, env)
  {
    hide IsBlockStart, IsEmptyBlock, FindBlock, BlockLength, Entries, LastLine;
    var start := 0;
    while start < |lines| && !IsBlockStart(lines[start]) && !IsEmptyBlock(lines[start])
      invariant start <= |lines|
      invariant forall j :: 0 <= j < start ==> !IsBlockStart(lines[j]) && !IsEmptyBlock(lines[j])
    {
      start := start + 1;
    }
    FindBlockIs(lines, start);
    if start == |lines| { return NoBlock; }
    if !IsBlockStart(lines[start]) { return Block(start, true, [], [], 0); }
    var region, entries, last := ParseEntries(lines[start + 1..], env);
    block := Block(start, false, region, entries, last);
  }

  // ---------------------------------------------------------------------------
  // Adding mounts

  function FormatMounts(paths: seq<string>): seq<string> {
    if paths == [] then []
    else
      FormatMounts(paths[..|paths| - 1])
      + ["  - location: " + Paths.Clean(paths[|paths| - 1]), "    writable: true"]
  }

  function FirstCover(entries: seq<Entry>, path: string, env: Environment): Option<Entry> {
    if entries == [] then None
    else if MountCovers(entries[0].location, path, env) then Some(entries[0])
    else FirstCover(entries[1..], path, env)
  }

  function Resolve(path: string, env: Environment): string {
    Paths.Clean(Paths.Abs(path, env.directory))
  }

  /** The required paths no entry covers. */
  function Uncovered(entries: seq<Entry>, required: seq<string>, env: Environment): seq<string> {
    if required == [] then []
    else
      var path := Resolve(required[|required| - 1], env);
      Uncovered(entries, required[..|required| - 1], env) + (if FirstCover(entries, path, env).None? then [path] else [])
  }

  datatype Refusal = Refusal(path: string, location: string)

  /** The first required path whose first cover is read-only. */
  function FirstRefusal(entries: seq<Entry>, required: seq<string>, env: Environment): Option<Refusal> {
    if required == [] then None
    else
      var earlier := FirstRefusal(entries, required[..|required| - 1], env);
      var path := Resolve(required[|required| - 1], env);
      var cover := FirstCover(entries, path, env);
      if earlier.Some? then earlier
      else if cover.Some? && !cover.value.writable then Some(Refusal(path, cover.value.location))
      else None
  }

  datatype Edit = Edited(contents: string, changed: bool) | ReadOnly(refusal: Refusal)

  /** Where the lines go when there is no block: after a blank line, unless one is there. */
  function Spaced(lines: seq<string>): seq<string>
    requires lines != []
  {
    if lines[|lines| - 1] != "" then lines + [""] else lines
  }

  /** The lines after an edit that adds the given paths. */
  function AddedLines(lines: seq<string>, block: Block, paths: seq<string>): seq<string>
    requires lines != [] && (block.Block? ==> block.start < |lines| && block.last <= |lines| - block.start - 1)
  {
    match block
    case NoBlock => Spaced(lines) + ["mounts:"] + FormatMounts(paths)
    case Block(start, inlineEmpty, _, _, last) =>
      if inlineEmpty then lines[..start] + (["mounts:"] + FormatMounts(paths)) + lines[start + 1..]
      else lines[..start + 1 + last] + FormatMounts(paths) + lines[start + 1 + last..]
  }

  function Pending(block: Block, required: seq<string>, env: Environment): seq<string> {
    if block.NoBlock? then required else Uncovered(block.entries, required, env)
  }

  function AddMounts(contents: string, required: seq<string>, env: Environment): Edit {
    var lines := Text.Split(contents, '\n');
    var block := ParseBlock(lines, env);
    var refusal := if block.Block? then FirstRefusal(block.entries, required, env) else None;
    if refusal.Some? then ReadOnly(refusal.value)
    else if Pending(block, required, env) == [] then Edited(contents, false)
    else Edited(Text.Join(AddedLines(lines, block, Pending(block, required, env)), '\n'), true)
  }

  method FormatColimaMountLines(paths: seq<string>) returns (lines: seq<string>)
    ensures lines == FormatMounts(paths)
  {
    lines := [];
    for i := 0 to |paths|
      invariant lines == FormatMounts(paths[..i])
    {
      assert paths[..i + 1][..i] == paths[..i];
      lines := lines + ["  - location: " + Paths.Clean(paths[i]), "    writable: true"];
    }
    assert paths[..|paths|] == paths;
  }

  method FindCover(entries: seq<Entry>, path: string, env: Environment) returns (cover: Option<Entry>)
    ensures cover == FirstCover(entries, path, env)
  {
    hide MountCovers;
    cover := None;
    for i := 0 to |entries|
      invariant FirstCover(entries, path, env) == FirstCover(entries[i..], path, env)
    {
      assert entries[i..][0] == entries[i] && entries[i..][1..] == entries[i + 1..];
      if MountCovers(entries[i].location, path, env) { return Some(entries[i]); }
    }
  }

  lemma {:induction false} RefusalStays(entries: seq<Entry>, required: seq<string>, k: nat, env: Environment)
    requires k <= |required| && FirstRefusal(entries, required[..k], env).Some?
    ensures FirstRefusal(entries, required, env) == FirstRefusal(entries, required[..k], env)
    decreases |required|
  {
    hide FirstCover, Resolve;
    if k == |required| {
      assert required[..k] == required;
    } else {
      var front := required[..|required| - 1];
      assert front[..k] == required[..k];
      RefusalStays(entries, front, k, env);
    }
  }

  /** The required paths the entries leave out, or the first read-only cover. */
  method FindMissing(entries: seq<Entry>, required: seq<string>, env: Environment)
    returns (refusal: Option<Refusal>, missing: seq<string>)
    ensures refusal == FirstRefusal(entries, required, env)
    ensures refusal.None? ==> missing == Uncovered(entries, required, env)
  {
    hide FirstCover, Resolve;
    missing := [];
    for i := 0 to |required|
      invariant FirstRefusal(entries, required[..i], env).None?
      invariant missing == Uncovered(entries, required[..i], env)
    {
      assert required[..i + 1][..i] == required[..i];
      var path := Resolve(required[i], env);
      var cover := FindCover(entries, path, env);
      if cover.Some? && !cover.value.writable {
        RefusalStays(entries, required, i + 1, env);
        return Some(Refusal(path, cover.value.location)), missing;
      }
      if cover.None? { missing := missing + [path]; }
    }
    assert required[..|required|] == required;
    refusal := None;
  }

  method AddColimaMounts(contents: string, required: seq<string>, env: Environment) returns (edit: Edit)
    ensures edit == AddMounts(contents, required, env)
  {
    hide FormatMounts, FirstRefusal, Uncovered, ParseBlock, Text.Split, Text.Join;
    var lines := Text.Split(contents, '\n');
    var block := ParseColimaMountBlock(lines, env);
    if block.NoBlock? {
      if required == [] { return Edited(contents, false); }
      if lines[|lines| - 1] != "" { lines := lines + [""]; }
      var addition := FormatColimaMountLines(required);
      lines := lines + ["mounts:"] + addition;
      return Edited(Text.Join(lines, '\n'), true);
    }
    var refusal, missing := FindMissing(block.entries, required, env);
    if refusal.Some? { return ReadOnly(refusal.value); }
    if missing == [] { return Edited(contents, false); }
    var addition := FormatColimaMountLines(missing);
    if block.inlineEmpty {
      lines := lines[..block.start] + (["mounts:"] + addition) + lines[block.start + 1..];
    } else {
      lines := Inserted(lines, block.start + 1 + block.last, addition);
    }
    edit := Edited(Text.Join(lines, '\n'), true);
  }

  /** Growing the lines, moving the tail up and copying the addition in. */
  method Inserted(lines: seq<string>, at: nat, addition: seq<string>) returns (all: seq<string>)
    requires at <= |lines|
    ensures all == lines[..at] + addition + lines[at..]
  {
    all := lines + seq(|addition|, _ => "");
    var after := at + |addition|;
    all := all[..after] + all[at..|all| - |addition|];
    assert all[after..] == lines[at..] && all[..at] == lines[..at];
    all := all[..at] + addition + all[after..];
  }
}
