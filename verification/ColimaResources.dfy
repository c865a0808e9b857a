/** The editor of the cpu, memory and disk lines of a Colima profile. Which texts are
    positive floating-point numbers is a parameter. */
module ColimaResources {
  import opened Common
  import opened GoText
  import Text

  datatype Key = Cpu | Memory | Disk

  datatype Resources = Resources(cpus: int, memory: int, disk: int)

  function Within(value: int, low: int, high: int, default: int): int {
    if value < low || value > high then default else value
  }

  /** Values out of range become the defaults. */
  function Normalize(r: Resources): (n: Resources)
    ensures 1 <= n.cpus <= 16 && 2 <= n.memory <= 64 && 10 <= n.disk <= 500
  {
    Resources(Within(r.cpus, 1, 16, 4), Within(r.memory, 2, 64, 4), Within(r.disk, 10, 500, 25))
  }

  predicate IsNormal(r: Resources) {
    1 <= r.cpus <= 16 && 2 <= r.memory <= 64 && 10 <= r.disk <= 500
  }

  function Name(key: Key): string {
    match key
    case Cpu => "cpu"
    case Memory => "memory"
    case Disk => "disk"
  }

  function Wanted(r: Resources, key: Key): (n: nat)
    requires IsNormal(r)
    ensures 1 <= n <= 500
  {
    match key
    case Cpu => r.cpus
    case Memory => r.memory
    case Disk => r.disk
  }

  // ---------------------------------------------------------------------------
  // Numbers

  /** strconv.Atoi: an optional sign and decimal digits, in sixty-four bits. */
  function Atoi(s: string): Option<int> {
    var signed := s != "" && (s[0] == '+' || s[0] == '-');
    var digits := if signed then s[1..] else s;
    if digits == "" || !Text.AllDigits(digits) then None
    else
      var magnitude: int := Text.DecimalValue(digits);
      var value := if signed && s[0] == '-' then -magnitude else magnitude;
      if -0x8000_0000_0000_0000 <= value < 0x8000_0000_0000_0000 then Some(value) else None
  }

  lemma {:induction false} DecimalText(n: nat)
    ensures Text.AllDigits(Text.Decimal(n)) && Text.DecimalValue(Text.Decimal(n)) == n
    ensures IsTrimmed(Text.Decimal(n)) && '#' !in Text.Decimal(n) && '\n' !in Text.Decimal(n)
  {
    Text.DecimalRoundTrip(n);
    var s := Text.Decimal(n);
    assert forall i :: 0 <= i < |s| ==> Text.IsDigit(s[i]);
    DigitIsInk(s[0]);
    DigitIsInk(s[|s| - 1]);
  }

  lemma DigitIsInk(c: char)
    ensures Text.IsDigit(c) ==> !IsSpace(c)
  {}

  lemma AtoiOfDecimal(n: nat)
    requires n <= 500
    ensures Atoi(Text.Decimal(n)) == Some(n)
  {
    DecimalText(n);
    var s := Text.Decimal(n);
    assert Text.IsDigit(s[0]);
  }

  // ---------------------------------------------------------------------------
  // One line

  predicate IsTopLevel(line: string) {
    line != "" && line[0] != ' ' && line[0] != '\t' && !("#" <= TrimSpace(line))
  }

  function BeforeHash(s: string): string {
    if s == "" || s[0] == '#' then "" else [s[0]] + BeforeHash(s[1..])
  }

  predicate HasKey(line: string, key: Key) {
    Name(key) + ":" <= line
  }

  /** The value of a line, without a comment after it. */
  function Current(line: string, key: Key): string
    requires HasKey(line, key)
  {
    TrimSpace(BeforeHash(TrimSpace(TrimSpace(line[|Name(key)| + 1..]))))
  }

  function KeyOf(line: string): Option<Key> {
    if !IsTopLevel(line) then None
    else if HasKey(line, Cpu) then Some(Cpu)
    else if HasKey(line, Memory) then Some(Memory)
    else if HasKey(line, Disk) then Some(Disk)
    else None
  }

  // At most one key fits a line, so the order they are tried in does not matter.
  lemma KeysAreApart(line: string, key: Key)
    ensures IsTopLevel(line) && HasKey(line, key) <==> KeyOf(line) == Some(key)
  {
    assert HasKey(line, Cpu) ==> line[0] == 'c';
    assert HasKey(line, Memory) ==> line[0] == 'm';
    assert HasKey(line, Disk) ==> line[0] == 'd';
  }

  datatype Error = Empty(key: Key) | BadDisk(text: string) | BadMemory(text: string)

  /** What happens to the value of a key. */
  datatype Verdict = Keep | Replace | Bad(error: Error)

  function Judge(key: Key, text: string, r: Resources, positive: string -> bool): Verdict
    requires IsNormal(r)
  {
    if text == "" then Bad(Empty(key))
    else if key == Disk && (Atoi(text).None? || Atoi(text).value < 1) then Bad(BadDisk(text))
    else if key == Disk && Atoi(text).value >= r.disk then Keep
    else if key == Memory && !positive(text) then Bad(BadMemory(text))
    else if text != Text.Decimal(Wanted(r, key)) then Replace
    else Keep
  }

  function Written(key: Key, r: Resources): string
    requires IsNormal(r)
  {
    Name(key) + ": " + Text.Decimal(Wanted(r, key))
  }

  function VerdictOf(line: string, r: Resources, positive: string -> bool): Verdict
    requires IsNormal(r)
  {
    if KeyOf(line).None? then Keep
    else
      KeysAreApart(line, KeyOf(line).value);
      Judge(KeyOf(line).value, Current(line, KeyOf(line).value), r, positive)
  }

  function NewLine(line: string, r: Resources, positive: string -> bool): string
    requires IsNormal(r)
  {
    if VerdictOf(line, r, positive).Replace? then Written(KeyOf(line).value, r) else line
  }

  /** The size a disk line names. */
  function DiskOf(line: string): Option<int> {
    if KeyOf(line) != Some(Disk) then None
    else
      KeysAreApart(line, Disk);
      Atoi(Current(line, Disk))
  }

  // ---------------------------------------------------------------------------
  // The whole file

  function NewLines(lines: seq<string>, r: Resources, positive: string -> bool): (result: seq<string>)
    requires IsNormal(r)
    ensures |result| == |lines|
  {
    seq(|lines|, i requires 0 <= i < |lines| => NewLine(lines[i], r, positive))
  }

  function FirstError(lines: seq<string>, r: Resources, positive: string -> bool): Option<Error>
    requires IsNormal(r)
  {
    if lines == [] then None
    else
      var earlier := FirstError(lines[..|lines| - 1], r, positive);
      if earlier.Some? then earlier
      else
        var verdict := VerdictOf(lines[|lines| - 1], r, positive);
        if verdict.Bad? then Some(verdict.error) else None
  }

  function Found(lines: seq<string>): set<Key> {
    if lines == [] then {}
    else
      Found(lines[..|lines| - 1])
      + (if KeyOf(lines[|lines| - 1]).Some? then {KeyOf(lines[|lines| - 1]).value} else {})
  }

  function LastDisk(lines: seq<string>): int {
    if lines == [] then 0
    else
      var disk := DiskOf(lines[|lines| - 1]);
      if disk.Some? then disk.value else LastDisk(lines[..|lines| - 1])
  }

  function Missing(found: set<Key>, r: Resources): seq<string>
    requires IsNormal(r)
  {
    (if Cpu in found then [] else [Written(Cpu, r)])
    + (if Memory in found then [] else [Written(Memory, r)])
    + (if Disk in found then [] else [Written(Disk, r)])
  }

  datatype Outcome = Updated(contents: string, changed: bool, disk: int) | Failed(error: Error)

  function ResultLines(lines: seq<string>, r: Resources, positive: string -> bool): seq<string>
    requires IsNormal(r)
  {
    NewLines(lines, r, positive) + Missing(Found(lines), r)
  }

  function UpdateOf(contents: string, resources: Resources, positive: string -> bool): Outcome {
    var r := Normalize(resources);
    var lines := Text.Split(contents, '\n');
    var error := FirstError(lines, r, positive);
    if error.Some? then Failed(error.value)
    else
      Updated(Text.Join(ResultLines(lines, r, positive), '\n'),
              ResultLines(lines, r, positive) != lines,
              if Disk in Found(lines) then LastDisk(lines) else r.disk)
  }

  lemma ReplaceDiffers(line: string, r: Resources, positive: string -> bool)
    requires IsNormal(r)
    ensures VerdictOf(line, r, positive).Replace? <==> NewLine(line, r, positive) != line
  {
    hide TrimSpace, BeforeHash, IsTopLevel;
    if VerdictOf(line, r, positive).Replace? {
      var key := KeyOf(line).value;
      KeysAreApart(line, key);
      WrittenReads(key, r);
    }
  }

  lemma {:induction false} NoHash(s: string)
    requires '#' !in s
    ensures BeforeHash(s) == s
  {
    if s != "" {
      assert s[1..] <= s[1..] && forall i :: 0 <= i < |s[1..]| ==> s[1..][i] == s[i + 1];
      NoHash(s[1..]);
    }
  }

  /** A line of a key and a number reads as that number. */
  lemma NumberLineReads(key: Key, n: nat)
    ensures var line := Name(key) + ": " + Text.Decimal(n);
      HasKey(line, key) && KeyOf(line) == Some(key) && Current(line, key) == Text.Decimal(n) && '\n' !in line
  {
    hide TrimSpace, BeforeHash, Text.Decimal, KeyOf;
    var number := Text.Decimal(n);
    var line := Name(key) + ": " + number;
    DecimalText(n);
    WrittenParts(key, number);
    TrimPadded(" ", number, "");
    TrimOfTrimmed(number);
    NoHash(number);
    TrimOfTrimmed(line);
    KeysAreApart(line, key);
  }

  /** A written line carries its key and reads as the wanted value. */
  lemma WrittenReads(key: Key, r: Resources)
    requires IsNormal(r)
    ensures var line := Written(key, r);
      HasKey(line, key) && KeyOf(line) == Some(key) && Current(line, key) == Text.Decimal(Wanted(r, key)) && '\n' !in line
  {
    hide TrimSpace, BeforeHash, Text.Decimal, KeyOf, Current;
    NumberLineReads(key, Wanted(r, key));
  }

  lemma WrittenParts(key: Key, number: string)
    requires number != "" && IsTrimmed(number) && '\n' !in number
    ensures var line := Name(key) + ": " + number;
      && HasKey(line, key) && line[|Name(key)| + 1..] == " " + number + ""
      && IsTrimmed(line) && !("#" <= line) && line[0] != ' ' && line[0] != '\t' && '\n' !in line
    ensures AllSpace(" ") && AllSpace("")
  {
    var line := Name(key) + ": " + number;
    assert line == (Name(key) + ":") + (" " + number);
    assert line[0] in {'c', 'm', 'd'} && line[|line| - 1] == number[|number| - 1];
  }

  // ---------------------------------------------------------------------------
  // The loop

  // One more line.
  lemma OneMore(before: seq<string>, line: string, r: Resources, positive: string -> bool)
    requires IsNormal(r)
    ensures var after := before + [line]; var key, verdict := KeyOf(line), VerdictOf(line, r, positive);
      && NewLines(after, r, positive) == NewLines(before, r, positive) + [NewLine(line, r, positive)]
      && Found(after) == Found(before) + (if key.Some? then {key.value} else {})
      && (FirstError(before, r, positive).None? ==>
            FirstError(after, r, positive) == if verdict.Bad? then Some(verdict.error) else None)
      && LastDisk(after) == (if DiskOf(line).Some? then DiskOf(line).value else LastDisk(before))
    ensures KeyOf(line) == Some(Disk) && !VerdictOf(line, r, positive).Bad? ==> DiskOf(line).Some?
    ensures DiskOf(line).Some? ==> KeyOf(line) == Some(Disk)
    ensures VerdictOf(line, r, positive).Replace? <==> NewLine(line, r, positive) != line
    ensures KeyOf(line).None? ==> VerdictOf(line, r, positive).Keep?
  {
    ReplaceDiffers(line, r, positive);
    hide KeyOf, Current, Atoi, NewLine, Text.Decimal;
    assert (before + [line])[..|before|] == before;
  }

  // The lines before the index are rewritten, the others are still as they were.
  ghost predicate Rewritten(lines: seq<string>, original: seq<string>, index: nat, changed: bool, r: Resources, positive: string -> bool)
    requires IsNormal(r)
  {
    && index <= |lines| == |original|
    && lines[..index] == NewLines(original[..index], r, positive)
    && lines[index..] == original[index..]
    && (changed <==> lines[..index] != original[..index])
  }

  lemma RewritesOne(lines: seq<string>, original: seq<string>, index: nat, changed: bool, r: Resources, positive: string -> bool)
    requires IsNormal(r) && Rewritten(lines, original, index, changed, r, positive) && index < |lines|
    ensures lines[index] == original[index] && original[..index + 1] == original[..index] + [original[index]]
    ensures var line := NewLine(original[index], r, positive);
      Rewritten(lines[index := line], original, index + 1, changed || line != original[index], r, positive)
  {
    hide NewLine, NewLines, VerdictOf, KeyOf, Found, FirstError, LastDisk, DiskOf;
    var line := NewLine(original[index], r, positive);
    var next := lines[index := line];
    assert lines[index..][0] == lines[index] && original[index..][0] == original[index];
    assert original[..index + 1] == original[..index] + [original[index]];
    assert next[..index + 1] == lines[..index] + [line];
    assert next[index + 1..] == lines[index..][1..] && original[index + 1..] == original[index..][1..];
    OneMore(original[..index], original[index], r, positive);
  }

  lemma AllRewritten(lines: seq<string>, original: seq<string>, changed: bool, r: Resources, positive: string -> bool)
    requires IsNormal(r) && Rewritten(lines, original, |lines|, changed, r, positive)
    ensures original[..|lines|] == original
    ensures lines == NewLines(original, r, positive) && (changed <==> lines != original)
  {
    hide NewLines;
    assert original[..|original|] == original && lines[..|lines|] == lines;
  }

  /** The lines are rewritten in place; for each, the keys are tried in any order. */
  method UpdateColimaResources(contents: string, resources: Resources, positive: string -> bool) returns (outcome: Outcome)
    ensures outcome == UpdateOf(contents, resources, positive)
  {
    hide IsTopLevel, HasKey, Current, Judge, Text.Split, Text.Join, FirstError, Found, LastDisk, NewLines, DiskOf, NewLine, Written, Rewritten;
    var r := Normalize(resources);
    var lines := Text.Split(contents, '\n');
    ghost var original := lines;
    var found, currentDisk, changed := {}, 0, false;
    Nothing(lines, r, positive);
    for index := 0 to |lines|
      invariant |lines| == |original| && Rewritten(lines, original, index, changed, r, positive)
      invariant found == Found(original[..index]) && currentDisk == LastDisk(original[..index])
      invariant FirstError(original[..index], r, positive).None?
    {
      var line := lines[index];
      RewritesOne(lines, original, index, changed, r, positive);
      ghost var next := lines[index := NewLine(line, r, positive)];
      OneMore(original[..index], line, r, positive);
      var key := FindKey(line);
      if key.Some? {
        KeysAreApart(line, key.value);
        var verdict := Judge(key.value, Current(line, key.value), r, positive);
        if verdict.Bad? {
          ErrorStays(original, index + 1, r, positive);
          return Failed(verdict.error);
        }
        if key.value == Disk { currentDisk := DiskOf(line).value; }
        if verdict.Replace? {
          WrittenIsNew(line, r, positive);
          lines := lines[index := Written(key.value, r)];
          changed := true;
        }
        found := found + {key.value};
      }
      KeptIsSame(line, r, positive);
      assert lines == next;
    }
    AllRewritten(lines, original, changed, r, positive);
    var appended: bool;
    lines, appended := AppendMissing(lines, found, r);
    outcome := Updated(Text.Join(lines, '\n'), changed || appended, if Disk in found then currentDisk else r.disk);
  }

  /** The keys without a line get one at the end. */
  method AppendMissing(lines: seq<string>, found: set<Key>, r: Resources) returns (all: seq<string>, appended: bool)
    requires IsNormal(r)
    ensures all == lines + Missing(found, r)
    ensures appended <==> Missing(found, r) != []
  {
    hide Written;
    all, appended := lines, false;
    if Cpu !in found { all := all + [Written(Cpu, r)]; appended := true; }
    if Memory !in found { all := all + [Written(Memory, r)]; appended := true; }
    if Disk !in found { all := all + [Written(Disk, r)]; appended := true; }
  }

  lemma Nothing(lines: seq<string>, r: Resources, positive: string -> bool)
    requires IsNormal(r)
    ensures Rewritten(lines, lines, 0, false, r, positive)
    ensures Found(lines[..0]) == {} && LastDisk(lines[..0]) == 0 && FirstError(lines[..0], r, positive).None?
  {
    assert lines[..0] == [];
  }

  lemma WrittenIsNew(line: string, r: Resources, positive: string -> bool)
    requires IsNormal(r) && VerdictOf(line, r, positive).Replace?
    ensures KeyOf(line).Some? && NewLine(line, r, positive) == Written(KeyOf(line).value, r)
  {}

  lemma KeptIsSame(line: string, r: Resources, positive: string -> bool)
    requires IsNormal(r)
    ensures !VerdictOf(line, r, positive).Replace? ==> NewLine(line, r, positive) == line
  {}

  /** Trying the keys in any order. */
  method FindKey(line: string) returns (key: Option<Key>)
    ensures key == KeyOf(line)
  {
    hide IsTopLevel, HasKey;
    key := None;
    if !IsTopLevel(line) { return; }
    var keys := {Cpu, Memory, Disk};
    forall k: Key
      ensures k in keys
    {
      match k {
        case Cpu =>
        case Memory =>
        case Disk =>
      }
    }
    while keys != {}
      invariant forall k :: k !in keys ==> !HasKey(line, k)
      decreases |keys|
    {
      var k :| k in keys;
      KeysAreApart(line, k);
      if HasKey(line, k) { return Some(k); }
      keys := keys - {k};
    }
  }

  lemma {:induction false} ErrorStays(lines: seq<string>, k: nat, r: Resources, positive: string -> bool)
    requires IsNormal(r) && k <= |lines| && FirstError(lines[..k], r, positive).Some?
    ensures FirstError(lines, r, positive) == FirstError(lines[..k], r, positive)
    decreases |lines|
  {
    hide VerdictOf;
    if k == |lines| {
      assert lines[..k] == lines;
    } else {
      var front := lines[..|lines| - 1];
      assert front[..k] == lines[..k];
      ErrorStays(front, k, r, positive);
    }
  }

  // ---------------------------------------------------------------------------
  // What an update leaves

  function Larger(a: int, b: int): int {
    if a >= b then a else b
  }

  /** A line that carries its key at the requested value, or a larger disk. */
  predicate IsSettled(line: string, r: Resources)
    requires IsNormal(r)
  {
    match KeyOf(line)
    case None => true
    case Some(key) =>
      KeysAreApart(line, key);
      if key == Disk then DiskOf(line).Some? && DiskOf(line).value >= r.disk
      else Current(line, key) == Text.Decimal(Wanted(r, key))
  }

  lemma NewLineFacts(line: string, r: Resources, positive: string -> bool)
    requires IsNormal(r) && !VerdictOf(line, r, positive).Bad?
    ensures var after := NewLine(line, r, positive);
      && KeyOf(after) == KeyOf(line) && IsSettled(after, r)
      && (KeyOf(line) == None ==> after == line)
      && (IsSettled(line, r) ==> after == line)
      && (KeyOf(line).Some? && !IsSettled(line, r) ==> after == Written(KeyOf(line).value, r))
      && (KeyOf(line) == Some(Disk) ==> DiskOf(line).Some? && DiskOf(after) == Some(Larger(DiskOf(line).value, r.disk)))
  {
    hide TrimSpace, BeforeHash, IsTopLevel, HasKey, Atoi, Text.Decimal;
    if KeyOf(line).Some? {
      var key := KeyOf(line).value;
      KeysAreApart(line, key);
      WrittenReads(key, r);
      AtoiOfDecimal(Wanted(r, key));
    }
  }

  lemma SettledIsKept(line: string, r: Resources, positive: string -> bool)
    requires IsNormal(r) && IsSettled(line, r) && positive(Text.Decimal(r.memory))
    ensures VerdictOf(line, r, positive) == Keep && NewLine(line, r, positive) == line
  {
    hide TrimSpace, BeforeHash, IsTopLevel, HasKey, Text.Decimal;
    if KeyOf(line).Some? {
      var key := KeyOf(line).value;
      KeysAreApart(line, key);
      DecimalText(Wanted(r, key));
      DecimalNotEmpty(Wanted(r, key));
      EmptyIsNoNumber();
    }
  }

  lemma EmptyIsNoNumber()
    ensures Atoi("").None?
  {}

  lemma DecimalNotEmpty(n: nat)
    ensures Text.Decimal(n) != ""
  {}

  lemma WrittenIsSettled(key: Key, r: Resources)
    requires IsNormal(r)
    ensures KeyOf(Written(key, r)) == Some(key) && IsSettled(Written(key, r), r) && '\n' !in Written(key, r)
    ensures key == Disk ==> DiskOf(Written(key, r)) == Some(r.disk)
  {
    hide TrimSpace, BeforeHash, IsTopLevel, HasKey, Atoi, Text.Decimal, Written, KeyOf, Current;
    WrittenReads(key, r);
    AtoiOfDecimal(Wanted(r, key));
  }

  lemma {:induction false} NoError(lines: seq<string>, r: Resources, positive: string -> bool)
    requires IsNormal(r)
    ensures FirstError(lines, r, positive).None? <==> forall i :: 0 <= i < |lines| ==> !VerdictOf(lines[i], r, positive).Bad?
  {
    hide VerdictOf;
    if lines != [] { NoError(lines[..|lines| - 1], r, positive); }
  }

  lemma {:induction false} FoundIff(lines: seq<string>, key: Key)
    ensures key in Found(lines) <==> exists i :: 0 <= i < |lines| && KeyOf(lines[i]) == Some(key)
  {
    hide KeyOf;
    if lines != [] {
      var front := lines[..|lines| - 1];
      FoundIff(front, key);
      if key in Found(front) {
        var i :| 0 <= i < |front| && KeyOf(front[i]) == Some(key);
        assert KeyOf(lines[i]) == Some(key);
      }
      if i :| 0 <= i < |lines| && KeyOf(lines[i]) == Some(key) {
        if i < |front| { assert KeyOf(front[i]) == Some(key); }
      }
    }
  }

  lemma {:induction false} FoundConcat(a: seq<string>, b: seq<string>)
    ensures Found(a + b) == Found(a) + Found(b)
  {
    hide KeyOf;
    if b == [] {
      assert a + b == a;
    } else {
      assert (a + b)[..|a + b| - 1] == a + b[..|b| - 1];
      FoundConcat(a, b[..|b| - 1]);
    }
  }

  lemma {:induction false} FoundKept(lines: seq<string>, r: Resources, positive: string -> bool)
    requires IsNormal(r) && FirstError(lines, r, positive).None?
    ensures Found(NewLines(lines, r, positive)) == Found(lines)
    ensures Disk in Found(lines) ==> LastDisk(NewLines(lines, r, positive)) == Larger(LastDisk(lines), r.disk)
  {
    hide KeyOf, DiskOf, VerdictOf, NewLine;
    if lines != [] {
      var front, last := lines[..|lines| - 1], lines[|lines| - 1];
      FoundKept(front, r, positive);
      NewLineFacts(last, r, positive);
      DiskHasKey(last);
      DiskHasKey(NewLine(last, r, positive));
      assert NewLines(lines, r, positive)[..|front|] == NewLines(front, r, positive);
    }
  }

  lemma DiskHasKey(line: string)
    ensures DiskOf(line).Some? ==> KeyOf(line) == Some(Disk)
  {}

  lemma {:induction false} LastDiskConcat(a: seq<string>, b: seq<string>)
    requires Disk !in Found(b)
    ensures LastDisk(a + b) == LastDisk(a)
  {
    hide KeyOf, DiskOf;
    if b == [] {
      assert a + b == a;
    } else {
      assert (a + b)[..|a + b| - 1] == a + b[..|b| - 1];
      DiskHasKey(b[|b| - 1]);
      LastDiskConcat(a, b[..|b| - 1]);
    }
  }

  // ---------------------------------------------------------------------------
  // The main results

  /** What a successful update leaves, line by line. */
  ghost predicate IsUpdateOf(before: seq<string>, after: seq<string>, r: Resources)
    requires IsNormal(r)
  {
    && |before| <= |after|
    && (forall i :: 0 <= i < |after| ==> IsSettled(after[i], r))
    && (forall i :: 0 <= i < |before| ==> KeyOf(after[i]) == KeyOf(before[i]))
    && (forall i :: 0 <= i < |before| && KeyOf(before[i]).None? ==> after[i] == before[i])
    && (forall i :: 0 <= i < |before| && IsSettled(before[i], r) ==> after[i] == before[i])
    && (forall i :: 0 <= i < |before| && KeyOf(before[i]).Some? && !IsSettled(before[i], r) ==>
          after[i] == Written(KeyOf(before[i]).value, r))
    && (forall i :: 0 <= i < |before| && KeyOf(before[i]) == Some(Disk) ==>
          DiskOf(before[i]).Some? && DiskOf(after[i]) == Some(Larger(DiskOf(before[i]).value, r.disk)))
    && (forall i :: |before| <= i < |after| ==> exists key :: key !in Found(before) && after[i] == Written(key, r))
    && Found(after) == {Cpu, Memory, Disk}
  }

  function Unless(present: bool, line: string): seq<string> {
    if present then [] else [line]
  }

  lemma MissingParts(found: set<Key>, r: Resources)
    requires IsNormal(r)
    ensures Missing(found, r) == Unless(Cpu in found, Written(Cpu, r)) + Unless(Memory in found, Written(Memory, r))
                                 + Unless(Disk in found, Written(Disk, r))
  {
    hide Written;
  }

  lemma FoundUnless(present: bool, key: Key, r: Resources)
    requires IsNormal(r)
    ensures Found(Unless(present, Written(key, r))) == if present then {} else {key}
  {
    hide Written, KeyOf;
    WrittenIsSettled(key, r);
    FoundOne(Written(key, r));
    FoundOfNone();
  }

  lemma MissingFound(found: set<Key>, r: Resources)
    requires IsNormal(r)
    ensures forall key :: key in Found(Missing(found, r)) <==> key !in found
  {
    hide Written, Found, Missing, Unless;
    MissingParts(found, r);
    var a, b, c := Unless(Cpu in found, Written(Cpu, r)), Unless(Memory in found, Written(Memory, r)), Unless(Disk in found, Written(Disk, r));
    FoundUnless(Cpu in found, Cpu, r);
    FoundUnless(Memory in found, Memory, r);
    FoundUnless(Disk in found, Disk, r);
    FoundConcat(a, b);
    FoundConcat(a + b, c);
    forall key
      ensures key in Found(a) + Found(b) + Found(c) <==> key !in found
    {
      match key {
        case Cpu =>
        case Memory =>
        case Disk =>
      }
    }
  }

  lemma MissingDisk(found: set<Key>, r: Resources)
    requires IsNormal(r) && Disk !in found
    ensures LastDisk(Missing(found, r)) == r.disk
  {
    hide Written, DiskOf;
    WrittenIsSettled(Disk, r);
    var lines := Missing(found, r);
    assert lines[|lines| - 1] == Written(Disk, r);
  }

  lemma MissingLines(found: set<Key>, r: Resources)
    requires IsNormal(r)
    ensures var lines := Missing(found, r);
      && (forall i :: 0 <= i < |lines| ==> exists key :: key !in found && lines[i] == Written(key, r))
      && (forall key :: key in Found(lines) <==> key !in found)
      && (Disk !in found ==> LastDisk(lines) == r.disk)
  {
    hide Written, Found, LastDisk;
    MissingFound(found, r);
    if Disk !in found { MissingDisk(found, r); }
  }

  lemma FoundOne(line: string)
    ensures Found([line]) == if KeyOf(line).Some? then {KeyOf(line).value} else {}
  {
    assert [line][..0] == [];
  }

  lemma FoundOfNone()
    ensures Found([]) == {}
  {}

  lemma UpdatedLines(lines: seq<string>, r: Resources, positive: string -> bool)
    requires IsNormal(r) && FirstError(lines, r, positive).None?
    ensures IsUpdateOf(lines, ResultLines(lines, r, positive), r)
  {
    hide KeyOf, DiskOf, VerdictOf, NewLine, Missing, Written, IsSettled;
    var rewritten, missing := NewLines(lines, r, positive), Missing(Found(lines), r);
    var after := rewritten + missing;
    NoError(lines, r, positive);
    MissingLines(Found(lines), r);
    forall i | 0 <= i < |lines|
      ensures KeyOf(after[i]) == KeyOf(lines[i]) && IsSettled(after[i], r)
      ensures KeyOf(lines[i]).None? ==> after[i] == lines[i]
      ensures KeyOf(lines[i]) == Some(Disk) ==>
        DiskOf(lines[i]).Some? && DiskOf(after[i]) == Some(Larger(DiskOf(lines[i]).value, r.disk))
      ensures IsSettled(lines[i], r) ==> after[i] == lines[i]
      ensures KeyOf(lines[i]).Some? && !IsSettled(lines[i], r) ==> after[i] == Written(KeyOf(lines[i]).value, r)
    {
      NewLineFacts(lines[i], r, positive);
    }
    forall i | |lines| <= i < |after|
      ensures IsSettled(after[i], r) && exists key :: key !in Found(lines) && after[i] == Written(key, r)
    {
      assert after[i] == missing[i - |lines|];
      var key :| key !in Found(lines) && after[i] == Written(key, r);
      WrittenIsSettled(key, r);
    }
    FoundKept(lines, r, positive);
    FoundConcat(rewritten, missing);
    forall key
      ensures key in Found(after) <==> key in {Cpu, Memory, Disk}
    {
      match key {
        case Cpu =>
        case Memory =>
        case Disk =>
      }
    }
  }

  lemma ResultHasNoBreaks(contents: string, r: Resources, positive: string -> bool)
    requires IsNormal(r)
    ensures var after := ResultLines(Text.Split(contents, '\n'), r, positive);
      Text.Split(Text.Join(after, '\n'), '\n') == after
  {
    hide KeyOf, VerdictOf, Text.Split, Text.Join, Written;
    var lines := Text.Split(contents, '\n');
    var after := ResultLines(lines, r, positive);
    Text.SplitPieces(contents, '\n');
    MissingLines(Found(lines), r);
    forall i | 0 <= i < |after|
      ensures '\n' !in after[i]
    {
      if i < |lines| {
        if VerdictOf(lines[i], r, positive).Replace? {
          WrittenIsNew(lines[i], r, positive);
          WrittenIsSettled(KeyOf(lines[i]).value, r);
        }
      } else {
        var missing := Missing(Found(lines), r);
        assert after[i] == missing[i - |lines|];
        var key :| key !in Found(lines) && after[i] == Written(key, r);
        WrittenIsSettled(key, r);
      }
    }
    Text.SplitOfJoin(after, '\n');
  }

  /** A successful update leaves every top-level cpu and memory line at the requested value,
      every top-level disk line at the larger of its old size and the requested one, every
      other line as it was, and each key with at least one line. It reports a change exactly
      when the text changed. */
  lemma UpdateEstablishes(contents: string, resources: Resources, positive: string -> bool)
    requires UpdateOf(contents, resources, positive).Updated?
    ensures var outcome := UpdateOf(contents, resources, positive);
      && IsUpdateOf(Text.Split(contents, '\n'), Text.Split(outcome.contents, '\n'), Normalize(resources))
      && (outcome.changed <==> outcome.contents != contents)
  {
    hide Text.Split, Text.Join, ResultLines, IsUpdateOf, FirstError, Found, LastDisk;
    var r := Normalize(resources);
    var lines := Text.Split(contents, '\n');
    UpdatedLines(lines, r, positive);
    ResultHasNoBreaks(contents, r, positive);
    Text.JoinOfSplit(contents, '\n');
  }

  lemma {:induction false} SettledLines(lines: seq<string>, r: Resources, positive: string -> bool)
    requires IsNormal(r) && positive(Text.Decimal(r.memory))
    requires forall i :: 0 <= i < |lines| ==> IsSettled(lines[i], r)
    ensures FirstError(lines, r, positive).None? && NewLines(lines, r, positive) == lines
  {
    hide IsSettled, VerdictOf, NewLine, Text.Decimal;
    forall i | 0 <= i < |lines|
      ensures VerdictOf(lines[i], r, positive) == Keep && NewLine(lines[i], r, positive) == lines[i]
    {
      SettledIsKept(lines[i], r, positive);
    }
    NoError(lines, r, positive);
  }

  lemma ResultDisk(lines: seq<string>, r: Resources, positive: string -> bool)
    requires IsNormal(r) && FirstError(lines, r, positive).None?
    ensures LastDisk(ResultLines(lines, r, positive)) == if Disk in Found(lines) then Larger(LastDisk(lines), r.disk) else r.disk
  {
    hide KeyOf, DiskOf, VerdictOf, NewLine, Missing, NewLines;
    FoundKept(lines, r, positive);
    MissingLines(Found(lines), r);
    var rewritten, missing := NewLines(lines, r, positive), Missing(Found(lines), r);
    if Disk in Found(lines) {
      LastDiskConcat(rewritten, missing);
    } else {
      forall i | 0 <= i < |missing| && KeyOf(missing[i]) == Some(Disk)
        ensures DiskOf(missing[i]).Some?
      {
        var key :| key !in Found(lines) && missing[i] == Written(key, r);
        WrittenIsSettled(key, r);
      }
      DiskIsLast(rewritten, missing);
    }
  }

  lemma {:induction false} DiskIsLast(a: seq<string>, b: seq<string>)
    requires Disk in Found(b) && forall i :: 0 <= i < |b| && KeyOf(b[i]) == Some(Disk) ==> DiskOf(b[i]).Some?
    ensures LastDisk(a + b) == LastDisk(b)
  {
    hide KeyOf, DiskOf;
    assert (a + b)[..|a + b| - 1] == a + b[..|b| - 1];
    if DiskOf(b[|b| - 1]).None? { DiskIsLast(a, b[..|b| - 1]); }
  }

  /** Updating again changes nothing and fails on nothing. The size it reports is the one
      now in the file, which is the larger of the first report and the request: growing a
      disk, the first update still reports the old size. */
  lemma UpdateIsIdempotent(contents: string, resources: Resources, positive: string -> bool)
    requires UpdateOf(contents, resources, positive).Updated?
    requires positive(Text.Decimal(Normalize(resources).memory))
    ensures var first := UpdateOf(contents, resources, positive);
      UpdateOf(first.contents, resources, positive)
        == Updated(first.contents, false, Larger(first.disk, Normalize(resources).disk))
  {
    hide Text.Split, Text.Join, FirstError, Found, LastDisk, NewLines, Missing, IsSettled, Normalize, Text.Decimal;
    NormalIsNormal(resources);
    var r := Normalize(resources);
    var lines := Text.Split(contents, '\n');
    var after := ResultLines(lines, r, positive);
    UpdatedLines(lines, r, positive);
    ResultHasNoBreaks(contents, r, positive);
    SettledLines(after, r, positive);
    ResultDisk(lines, r, positive);
    NothingMissing(Found(after), r);
  }

  lemma NormalIsNormal(resources: Resources)
    ensures IsNormal(Normalize(resources))
  {}

  lemma NothingMissing(found: set<Key>, r: Resources)
    requires IsNormal(r) && found == {Cpu, Memory, Disk}
    ensures Missing(found, r) == []
  {
    hide Written;
  }

  // ---------------------------------------------------------------------------
  // The reported size

  /** The reported size is the size now in the file exactly when the file had no disk line
      or its last one was large enough already. A disk that grows is reported with the size
      it had. */
  lemma ReportIsCurrent(contents: string, resources: Resources, positive: string -> bool)
    requires UpdateOf(contents, resources, positive).Updated?
    ensures var first := UpdateOf(contents, resources, positive); var wanted := Normalize(resources).disk;
      var lines := Text.Split(contents, '\n'); var now := LastDisk(Text.Split(first.contents, '\n'));
      && now == Larger(first.disk, wanted)
      && (first.disk == now <==> Disk !in Found(lines) || LastDisk(lines) >= wanted)
      && (Disk in Found(lines) ==> first.disk == LastDisk(lines))
  {
    hide Text.Split, Text.Join, FirstError, Found, LastDisk, ResultLines, Normalize;
    NormalIsNormal(resources);
    var r := Normalize(resources);
    ResultHasNoBreaks(contents, r, positive);
    ResultDisk(Text.Split(contents, '\n'), r, positive);
  }

  predicate IsPositiveDecimal(s: string) {
    s != "" && Text.AllDigits(s) && Text.DecimalValue(s) > 0
  }

  const GROWING := "cpu: 2\ndisk: 20\nmemory: 2\n"

  lemma GrowingLines()
    ensures Text.Split(GROWING, '\n') == ["cpu: 2", "disk: 20", "memory: 2", ""]
  {
    Text.SplitPieces("cpu: 2", '\n');
    Text.SplitPieces("disk: 20", '\n');
    Text.SplitPieces("memory: 2", '\n');
    Text.SplitPieces("", '\n');
    hide Text.Split;
    Text.SplitConcat("memory: 2", '\n', "");
    Text.SplitConcat("disk: 20", '\n', "memory: 2" + ['\n'] + "");
    Text.SplitConcat("cpu: 2", '\n', "disk: 20" + ['\n'] + ("memory: 2" + ['\n'] + ""));
    assert GROWING == "cpu: 2" + ['\n'] + ("disk: 20" + ['\n'] + ("memory: 2" + ['\n'] + ""));
  }

  lemma GrowingNumbers()
    ensures Text.Decimal(2) == "2" && Text.Decimal(20) == "20" && Text.Decimal(4) == "4" && IsPositiveDecimal("2")
    ensures "cpu: 2" == Name(Cpu) + ": " + "2" && "disk: 20" == Name(Disk) + ": " + "20" && "memory: 2" == Name(Memory) + ": " + "2"
  {
    Text.DecimalRoundTrip(2);
  }

  /** With a request of 25 the disk of 20 grows, and 20 is reported. */
  lemma GrowingDisk()
    ensures var outcome := UpdateOf(GROWING, Resources(4, 4, 25), IsPositiveDecimal);
      outcome.Updated? && outcome.disk == 20 && LastDisk(Text.Split(outcome.contents, '\n')) == 25
  {
    hide Text.Split, Text.Join, Text.Decimal, TrimSpace, BeforeHash, Current, Atoi, ResultLines, KeyOf, IsPositiveDecimal;
    var r := Resources(4, 4, 25);
    var lines := ["cpu: 2", "disk: 20", "memory: 2", ""];
    assert Normalize(r) == r;
    GrowingLines();
    GrowingNumbers();
    NumberLineReads(Cpu, 2);
    NumberLineReads(Disk, 20);
    NumberLineReads(Memory, 2);
    AtoiOfDecimal(20);
    assert KeyOf("").None? by { BlankHasNoKey(); }
    NoError(lines, r, IsPositiveDecimal);
    assert lines[..3] == ["cpu: 2", "disk: 20", "memory: 2"] && lines[..3][..2] == ["cpu: 2", "disk: 20"];
    FoundIff(lines, Disk);
    assert KeyOf(lines[1]) == Some(Disk);
    assert LastDisk(["cpu: 2", "disk: 20"]) == 20;
    assert LastDisk(lines[..3]) == 20;
    ReportIsCurrent(GROWING, r, IsPositiveDecimal);
  }

  lemma BlankHasNoKey()
    ensures KeyOf("").None?
  {}

  // ---------------------------------------------------------------------------
  // Lines as they are written by hand

  lemma {:induction false} UpToHash(text: string, comment: string)
    requires '#' !in text && (comment != "" ==> comment[0] == '#')
    ensures BeforeHash(text + comment) == text
  {
    if text == "" {
      assert text + comment == comment;
    } else {
      assert (text + comment)[1..] == text[1..] + comment;
      UpToHash(text[1..], comment);
    }
  }

  lemma InkComesFirst(before: string, rest: string)
    requires AllSpace(before) && before + rest != "" && !IsSpace((before + rest)[0])
    ensures before == ""
  {}

  lemma InkIsInside(kept: string, after: string, i: nat)
    requires AllSpace(after) && i < |kept + after| && !IsSpace((kept + after)[i])
    ensures i < |kept|
  {
    assert forall k :: |kept| <= k < |kept + after| ==> (kept + after)[k] == after[k - |kept|];
  }

  // Trimming a text that begins with ink and goes on with a comment keeps the mark of the
  // comment.
  lemma TrimKeepsMark(text: string, comment: string) returns (rest: string)
    requires text != "" && !IsSpace(text[0]) && comment != "" && comment[0] == '#'
    ensures TrimSpace(text + comment) == text + rest && rest != "" && rest[0] == '#'
  {
    hide TrimSpace;
    var all := text + comment;
    var before, after := TrimFacts(all);
    var kept := TrimSpace(all);
    assert !IsSpace('#') && all[|text|] == '#';
    assert all == before + (kept + after);
    InkComesFirst(before, kept + after);
    assert all == kept + after;
    InkIsInside(kept, after, |text|);
    rest := kept[|text|..];
    assert kept[..|text|] == all[..|text|] == text;
    assert rest[0] == all[|text|];
  }

  /** A line of a key names the value up to a comment, whatever blanks are around it. */
  lemma CommentIsIgnored(key: Key, before: string, value: string, after: string, comment: string)
    requires AllSpace(before) && AllSpace(after) && value != "" && IsTrimmed(value) && '#' !in value
    requires '#' !in after && (comment != "" ==> comment[0] == '#')
    ensures var line := Name(key) + ":" + before + value + after + comment;
      KeyOf(line) == Some(key) && Current(line, key) == value
  {
    hide TrimSpace, BeforeHash, IsSpace, AllSpace;
    var line := Name(key) + ":" + before + value + after + comment;
    KeyLine(key, before + value + after + comment);
    assert line == Name(key) + ":" + (before + value + after + comment);
    assert line[|Name(key)| + 1..] == before + value + after + comment;
    ValueBeforeComment(before, value, after, comment);
    KeysAreApart(line, key);
  }

  lemma KeyLine(key: Key, rest: string)
    ensures var line := Name(key) + ":" + rest; IsTopLevel(line) && HasKey(line, key)
  {
    hide TrimSpace;
    var line := Name(key) + ":" + rest;
    assert line[0] in {'c', 'm', 'd'};
    TrimStartsSame(line);
  }

  lemma TrimStartsSame(line: string)
    requires line != "" && !IsSpace(line[0])
    ensures TrimSpace(line) != "" && TrimSpace(line)[0] == line[0]
  {
    hide TrimSpace;
    var before, after := TrimFacts(line);
    var kept := TrimSpace(line);
    assert line == before + (kept + after);
    InkComesFirst(before, kept + after);
    assert line == kept + after;
    InkIsInside(kept, after, 0);
  }

  lemma ValueBeforeComment(before: string, value: string, after: string, comment: string)
    requires AllSpace(before) && AllSpace(after) && value != "" && IsTrimmed(value) && '#' !in value
    requires '#' !in after && (comment != "" ==> comment[0] == '#')
    ensures TrimSpace(BeforeHash(TrimSpace(TrimSpace(before + value + after + comment)))) == value
  {
    hide TrimSpace, BeforeHash;
    var all := before + value + after + comment;
    TrimTwice(all);
    if comment == "" {
      assert all == before + value + after;
      TrimPadded(before, value, after);
      NoHash(value);
      TrimOfTrimmed(value);
    } else {
      var rest := TrimKeepsMark(value + after, comment);
      assert all == before + (value + after + comment);
      TrimDropsBlanks(before, value + after + comment);
      UpToHash(value + after, rest);
      TrimPadded("", value, after);
      assert "" + value + after == value + after;
    }
  }

  lemma TrimDropsBlanks(before: string, s: string)
    requires AllSpace(before) && s != "" && !IsSpace(s[0])
    ensures TrimSpace(before + s) == TrimSpace(s)
  {
    TrimLeftDrops(before, s);
    TrimLeftDrops("", s);
    assert "" + s == s;
  }

  /** The lines the editor writes. */
  lemma WrittenTexts(r: Resources)
    requires IsNormal(r)
    ensures Written(Cpu, r) == "cpu: " + Text.Decimal(r.cpus)
    ensures Written(Memory, r) == "memory: " + Text.Decimal(r.memory)
    ensures Written(Disk, r) == "disk: " + Text.Decimal(r.disk)
  {
    hide Text.Decimal;
    assert "cpu" + ": " == "cpu: " && "memory" + ": " == "memory: " && "disk" + ": " == "disk: ";
  }

  /** The limits are allowed, and one more or less gives the default of that resource. */
  lemma NormalValues()
    ensures Normalize(Resources(1, 2, 10)) == Resources(1, 2, 10) && Normalize(Resources(16, 64, 500)) == Resources(16, 64, 500)
    ensures Normalize(Resources(0, 1, 9)) == Resources(4, 4, 25) && Normalize(Resources(17, 65, 501)) == Resources(4, 4, 25)
    ensures forall r: Resources :: IsNormal(r) ==> Normalize(r) == r
  {}

  /** A number may carry a sign, and must fit in sixty-four bits. */
  lemma SignedSizes(digits: string)
    requires digits != "" && Text.AllDigits(digits)
    ensures var n: int := Text.DecimalValue(digits);
      && Atoi(digits) == Atoi("+" + digits) == (if n < 0x8000_0000_0000_0000 then Some(n) else None)
      && Atoi("-" + digits) == (if n <= 0x8000_0000_0000_0000 then Some(-n) else None)
  {
    hide Text.DecimalValue;
    assert Text.IsDigit(digits[0]);
    assert ("+" + digits)[1..] == digits && ("-" + digits)[1..] == digits;
  }

  // ---------------------------------------------------------------------------
  // Failures

  /** What is wrong with a line, whatever is requested: an empty value, a disk that is no
      positive number, or a memory size that is none. */
  function Fault(line: string, positive: string -> bool): Option<Error> {
    if KeyOf(line).None? then None
    else
      KeysAreApart(line, KeyOf(line).value);
      var text := Current(line, KeyOf(line).value);
      match KeyOf(line).value
      case Cpu => if text == "" then Some(Empty(Cpu)) else None
      case Memory => if text == "" then Some(Empty(Memory)) else if positive(text) then None else Some(BadMemory(text))
      case Disk =>
        if text == "" then Some(Empty(Disk))
        else if Atoi(text).Some? && Atoi(text).value > 0 then None else Some(BadDisk(text))
  }

  lemma FaultIsBad(line: string, r: Resources, positive: string -> bool)
    requires IsNormal(r)
    ensures VerdictOf(line, r, positive).Bad? <==> Fault(line, positive).Some?
    ensures VerdictOf(line, r, positive).Bad? ==> Fault(line, positive) == Some(VerdictOf(line, r, positive).error)
  {
    hide KeyOf, Current, Atoi, HasKey, Text.Decimal;
    if KeyOf(line).Some? { KeysAreApart(line, KeyOf(line).value); }
  }

  ghost predicate HasFault(lines: seq<string>, positive: string -> bool) {
    exists i :: 0 <= i < |lines| && Fault(lines[i], positive).Some?
  }

  ghost predicate IsFirstFault(lines: seq<string>, error: Error, positive: string -> bool) {
    exists i ::
      && 0 <= i < |lines| && Fault(lines[i], positive) == Some(error)
      && forall k :: 0 <= k < i ==> Fault(lines[k], positive).None?
  }

  lemma {:induction false} FirstFault(lines: seq<string>, r: Resources, positive: string -> bool) returns (i: nat)
    requires IsNormal(r) && FirstError(lines, r, positive).Some?
    ensures i < |lines| && Fault(lines[i], positive) == FirstError(lines, r, positive)
    ensures forall k :: 0 <= k < i ==> Fault(lines[k], positive).None?
  {
    hide VerdictOf, Fault;
    var front := lines[..|lines| - 1];
    if FirstError(front, r, positive).Some? {
      i := FirstFault(front, r, positive);
    } else {
      i := |lines| - 1;
      FaultIsBad(lines[i], r, positive);
      NoError(front, r, positive);
      forall k | 0 <= k < i
        ensures Fault(lines[k], positive).None?
      {
        FaultIsBad(lines[k], r, positive);
        assert front[k] == lines[k];
      }
    }
  }

  /** An update fails exactly when some line has a fault, and with the fault of the first. */
  lemma FailsAtFirstFault(contents: string, resources: Resources, positive: string -> bool)
    ensures var lines, outcome := Text.Split(contents, '\n'), UpdateOf(contents, resources, positive);
      && (outcome.Failed? <==> HasFault(lines, positive))
      && (outcome.Failed? ==> IsFirstFault(lines, outcome.error, positive))
  {
    hide Text.Split, Text.Join, FirstError, VerdictOf, Fault, ResultLines, Found, LastDisk, Normalize;
    NormalIsNormal(resources);
    var lines, r := Text.Split(contents, '\n'), Normalize(resources);
    if FirstError(lines, r, positive).Some? {
      var i := FirstFault(lines, r, positive);
    } else {
      NoError(lines, r, positive);
      forall i | 0 <= i < |lines|
        ensures Fault(lines[i], positive).None?
      {
        FaultIsBad(lines[i], r, positive);
      }
    }
  }
}
