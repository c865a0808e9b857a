/** What the importer's state machine does on the lines of an exported file. */
module WorkflowScan {
  import opened Common
  import opened Text
  import opened WorkflowMarkdown
  import opened WorkflowLines
  import Cron

  // ---------------------------------------------------------------------------
  // Line shapes

  lemma InkIsNotSpace()
    ensures !IsSpace('#') && !IsSpace('`') && !IsSpace('~') && !IsSpace('-') && !IsSpace(':') && IsSpace(' ')
  {}

  lemma InkLine(line: string)
    requires line != "" && !IsSpace(line[0])
    ensures TrimStart(line) == line && Trim(line) != ""
  {
    TrimStartDrops("", line);
    assert "" + line == line;
    TrimEndFacts(line);
    assert !AllSpace(line);
    assert line[0..] == line;
  }

  lemma NumberSignIsNoFence(line: string)
    requires line != "" && line[0] == '#'
    ensures FenceOf(line).None? && Trim(line) != ""
  {
    InkIsNotSpace();
    InkLine(line);
  }

  lemma NoNumberSignNoHeading(line: string)
    requires line != "" ==> line[0] != '#'
    ensures HeadingOf(line).None?
  {}

  lemma {:induction false} RunOfTicks(n: nat, rest: string)
    requires rest != "" ==> rest[0] != '`'
    ensures RunOf(Ticks(n) + rest, '`') == n
  {
    if n == 0 {
      assert Ticks(0) + rest == rest;
    } else {
      assert (Ticks(n) + rest)[1..] == Ticks(n - 1) + rest;
      RunOfTicks(n - 1, rest);
    }
  }

  lemma FenceOfTicks(n: nat)
    requires n >= 3
    ensures FenceOf(Ticks(n)) == Some(Ticks(n)) && Trim(Ticks(n)) != ""
  {
    InkIsNotSpace();
    InkLine(Ticks(n));
    RunOfTicks(n, "");
    assert Ticks(n) + "" == Ticks(n);
    assert Ticks(n)[n..] == "";
    TrimOfSpaces("");
    assert Ticks(n)[..n] == Ticks(n);
  }

  lemma HeadingLine(level: nat, text: string)
    requires 1 <= level <= 6 && text != "" && IsTrimmed(text) && !HasLineTerminator(text)
    ensures HeadingOf(Signs(level) + " " + text) == Some(Heading(level, text))
    ensures (Signs(level) + " " + text)[0] == '#'
  {
    InkIsNotSpace();
    var line := Signs(level) + " " + text;
    assert line == Signs(level) + (" " + text);
    RunOfSigns(level, " " + text);
    assert line[level..] == " " + text;
    TrimStartDrops(" ", text);
    TrimOfTrimmed(text);
  }

  function Signs(n: nat): (s: string)
    ensures |s| == n && forall i :: 0 <= i < n ==> s[i] == '#'
  {
    seq(n, _ => '#')
  }

  lemma {:induction false} RunOfSigns(n: nat, rest: string)
    requires rest != "" ==> rest[0] != '#'
    ensures RunOf(Signs(n) + rest, '#') == n
  {
    if n == 0 {
      assert Signs(0) + rest == rest;
    } else {
      assert (Signs(n) + rest)[1..] == Signs(n - 1) + rest;
      RunOfSigns(n - 1, rest);
    }
  }

  lemma {:induction false} IndexAfter(p: string, c: char, rest: string)
    requires c !in p
    ensures IndexOf(p + [c] + rest, c) == |p|
  {
    if p == "" {
      assert p + [c] + rest == [c] + rest;
    } else {
      assert (p + [c] + rest)[1..] == p[1..] + [c] + rest;
      IndexAfter(p[1..], c, rest);
    }
  }

  /** A bullet line written as "- key: value". */
  lemma BulletLine(key: string, value: string)
    requires key != "" && IsTrimmed(key) && ':' !in key
    requires value != "" && IsTrimmed(value)
    ensures var b := BulletOf("- " + key + ": " + value);
      if HasLineTerminator(value) then b.None? else b == Some(Bullet(Lower(key), value))
    ensures HeadingOf("- " + key + ": " + value).None?
  {
    hide Trim, TrimStart, IndexOf, Lower, HasLineTerminator;
    InkIsNotSpace();
    var line := "- " + key + ": " + value;
    assert line[0] == '-' && line[|line| - 1] == value[|value| - 1];
    TrimOfTrimmed(line);
    var s := line[1..];
    var front, back := " " + key, " " + value;
    assert s == front + [':'] + back;
    IndexAfter(front, ':', back);
    assert s[..|front|] == front && s[|front| + 1..] == back;
    TrimStartDrops(" ", value);
    TrimOfTrimmed(value);
    TrimPadded(" ", key, "");
    assert " " + key + "" == front;
  }

  lemma LowerKeys()
    ensures Lower("Schedule") == "schedule" && Lower("Cron") == "cron" && Lower("Time zone") == "time zone"
    ensures Lower("Instructions") == "instructions"
  {}

  lemma KeysAreTrimmed()
    ensures IsTrimmed("Schedule") && IsTrimmed("Cron") && IsTrimmed("Time zone") && IsTrimmed("Instructions")
    ensures ':' !in "Schedule" && ':' !in "Cron" && ':' !in "Time zone"
    ensures !HasLineTerminator("Instructions")
  {}

  // ---------------------------------------------------------------------------
  // Values written on one line

  lemma {:induction false} JoinOneLine(words: seq<string>)
    requires forall k :: 0 <= k < |words| ==> IsWord(words[k])
    ensures !HasLineTerminator(Join(words, ' ')) && IsTrimmed(Join(words, ' '))
    ensures words != [] ==> Join(words, ' ') != ""
  {
    if words != [] {
      WordIsOneLine(words[0]);
      if |words| > 1 {
        JoinOneLine(words[1..]);
        var rest := Join(words[1..], ' ');
        assert Join(words, ' ') == words[0] + [' '] + rest;
        var all := words[0] + [' '] + rest;
        assert all[|all| - 1] == rest[|rest| - 1] && all[0] == words[0][0];
        forall i | 0 <= i < |all|
          ensures !IsLineTerminator(all[i])
        {
          if i > |words[0]| { assert all[i] == rest[i - |words[0]| - 1]; }
        }
      }
    }
  }

  lemma WordIsOneLine(w: string)
    requires IsWord(w)
    ensures !HasLineTerminator(w)
  {
    forall i | 0 <= i < |w|
      ensures !IsLineTerminator(w[i])
    {
      TerminatorIsSpace(w[i]);
    }
  }

  lemma TerminatorIsSpace(c: char)
    ensures IsLineTerminator(c) ==> IsSpace(c)
  {}

  lemma NormalizedOneLine(cron: string)
    ensures !HasLineTerminator(Cron.Normalize(cron)) && IsTrimmed(Cron.Normalize(cron))
  {
    hide HasLineTerminator, IsTrimmed;
    WordsAreWords(cron);
    JoinOneLine(Words(cron));
  }

  /** The cron bullet's inline code is taken off again. */
  lemma CodeIsStripped(cron: string)
    requires !HasLineTerminator(cron) && IsTrimmed(cron)
    ensures var code := "`" + cron + "`";
      code != "" && IsTrimmed(code) && !HasLineTerminator(code) && StripInlineCode(code) == cron
  {
    InkIsNotSpace();
    var code := "`" + cron + "`";
    TrimOfTrimmed(code);
    TrimOfTrimmed(cron);
    assert code[1..|code| - 1] == cron;
    forall i | 0 <= i < |code|
      ensures !IsLineTerminator(code[i])
    {
      if 0 < i < |code| - 1 { assert code[i] == cron[i - 1]; }
    }
  }

  lemma NameOneLine(name: string)
    requires CleanName(name)
    ensures !HasLineTerminator(name)
  {}

  // ---------------------------------------------------------------------------
  // Header lines

  function NewSection(name: string): Section {
    Section(name, "", "", [], false, [])
  }

  lemma StepName(st: State, name: string)
    requires st.openFence == "" && name != "" && IsTrimmed(name) && !HasLineTerminator(name)
    ensures Step(st, "## " + name) == State(st.sections + [NewSection(name)], true, false, "", false)
  {
    hide FenceOf, HeadingOf, BulletOf, Trim, HasLineTerminator, IsTrimmed, Closes;
    HeadingLine(2, name);
    assert Signs(2) + " " + name == "## " + name;
    NumberSignIsNoFence("## " + name);
  }

  lemma StepBlank(st: State)
    requires st.openFence == "" && st.hasCurrent && st.sections != [] && (st.inInstructions ==> st.awaitingBody)
    ensures st.awaitingBody ==> Step(st, "") == st
    ensures !st.awaitingBody ==> Step(st, "") == st
  {
    hide FenceOf, HasLineTerminator, Closes;
    NoNumberSignNoHeading("");
    TrimOfSpaces("");
    assert BulletOf("").None?;
  }

  lemma StepBullet(st: State, key: string, value: string)
    requires st.openFence == "" && !st.awaitingBody && st.hasCurrent && st.sections != [] && !st.inInstructions
    requires key != "" && IsTrimmed(key) && ':' !in key && value != "" && IsTrimmed(value)
    ensures Step(st, "- " + key + ": " + value)
         == if HasLineTerminator(value) then st
            else WithCurrent(st, ReadBullet(Current(st), Bullet(Lower(key), value)))
  {
    hide FenceOf, HeadingOf, BulletOf, Trim, HasLineTerminator, IsTrimmed, Closes, ReadBullet, Lower;
    BulletLine(key, value);
  }

  lemma StepInstructions(st: State)
    requires st.openFence == "" && !st.awaitingBody && st.hasCurrent && st.sections != [] && !st.inInstructions
    ensures Step(st, "### Instructions") == st.(inInstructions := true, awaitingBody := true)
  {
    hide FenceOf, HeadingOf, BulletOf, Trim, HasLineTerminator, IsTrimmed, Closes, Lower;
    KeysAreTrimmed();
    HeadingLine(3, "Instructions");
    assert Signs(3) + " " + "Instructions" == "### Instructions";
    LowerKeys();
  }

  lemma {:induction false} ScanConcat(st: State, a: seq<string>, b: seq<string>)
    ensures Scan(st, a + b) == Scan(Scan(st, a), b)
    decreases |a|
  {
    hide Step;
    if a == [] {
      assert a + b == b;
    } else {
      assert (a + b)[1..] == a[1..] + b;
      ScanConcat(Step(st, a[0]), a[1..], b);
    }
  }

  lemma ScanOne(st: State, line: string)
    ensures Scan(st, [line]) == Step(st, line)
  {
    hide Step;
    assert [line][1..] == [];
  }

  /** The state after the header of a section: waiting for its body. */
  function AfterHeader(st: State, t: Template): State {
    State(st.sections + [Section(Trim(t.name), Cron.Normalize(t.cron), StripInlineCode(Trim(t.timeZone)), [], false, [])],
          true, true, "", true)
  }

  lemma DescriptionIsText(cron: string)
    ensures DescribeSchedule(cron) != "" && IsTrimmed(DescribeSchedule(cron))
  {
    hide Cron.CronToSchedule, Cron.IsValid, Cron.Normalize, DayName;
    var schedule := Cron.CronToSchedule(cron);
    if schedule.Some? {
      TimeEndsInDigit(cron);
      var d := DescribeSchedule(cron);
      assert d[|d| - 1] == schedule.value.time[|schedule.value.time| - 1] && d[0] == 'E';
    }
  }

  lemma TimeEndsInDigit(cron: string)
    requires Cron.CronToSchedule(cron).Some?
    ensures var time := Cron.CronToSchedule(cron).value.time; time != "" && !IsSpace(time[|time| - 1])
  {
    hide Cron.ParseNumber, Cron.ValidField, Cron.Normalize, Split, Words, Cron.Pad, Decimal;
    Cron.ValidWords(cron);
    var fields := Words(cron);
    Cron.NumberField(fields[0], 0, 59);
    Cron.NumberField(fields[1], 0, 23);
    Cron.PadTwo(Cron.ParseNumber(fields[0]).value);
    var m := Cron.Pad(Decimal(Cron.ParseNumber(fields[0]).value));
    DigitIsNoSpace(m[1]);
  }

  // The header up to and including its heading for the instructions.
  lemma ScanHeaderStart(st: State, t: Template)
    requires st.openFence == "" && Findable(t) && Trim(t.timeZone) != ""
    ensures Scan(st, HeaderPieces(t)[..7]) == AfterHeader(st, t)
  {
    hide Step, Scan, FenceOf, HeadingOf, BulletOf, Trim, HasLineTerminator, IsTrimmed, Closes, DescribeSchedule,
         Cron.Normalize, Lower, StripInlineCode, CleanName, CleanBody;
    var name, cron, zone := Trim(t.name), Cron.Normalize(t.cron), Trim(t.timeZone);
    var n0, n1 := TrimFacts(t.name);
    var z0, z1 := TrimFacts(t.timeZone);
    NameOneLine(name);
    NormalizedOneLine(t.cron);
    CodeIsStripped(cron);
    DescriptionIsText(cron);
    KeysAreTrimmed();
    LowerKeys();
    var s1 := State(st.sections + [NewSection(name)], true, false, "", false);
    StepName(st, name);
    StepBlank(s1);
    StepBullet(s1, "Schedule", DescribeSchedule(cron));
    ScheduleIgnored(s1, DescribeSchedule(cron));
    StepBullet(s1, "Cron", "`" + cron + "`");
    var s2 := WithCurrent(s1, NewSection(name).(cron := cron));
    CronRead(name, cron);
    StepBullet(s2, "Time zone", zone);
    var s3 := WithCurrent(s2, NewSection(name).(cron := cron, timeZone := StripInlineCode(zone)));
    StepBlank(s3);
    StepInstructions(s3);
    var s4 := s3.(inInstructions := true, awaitingBody := true);
    assert s4 == AfterHeader(st, t);
    HeaderTexts(DescribeSchedule(cron), cron, zone);
    ScanSeven(st, HeaderPieces(t)[..7], s1, s1, s1, s2, s3, s3);
  }

  lemma HeaderBlank(t: Template)
    ensures |HeaderPieces(t)| == 8 && HeaderPieces(t)[7] == "" && HeaderPieces(t) == HeaderPieces(t)[..7] + [""]
  {
    hide Trim, Cron.Normalize, DescribeSchedule;
  }

  lemma ScanHeader(st: State, t: Template)
    requires st.openFence == "" && Findable(t) && Trim(t.timeZone) != ""
    ensures Scan(st, HeaderPieces(t)) == AfterHeader(st, t)
  {
    hide Step, Scan, HeaderPieces, Trim, Findable;
    ScanHeaderStart(st, t);
    HeaderBlank(t);
    ScanConcat(st, HeaderPieces(t)[..7], [""]);
    ScanOne(AfterHeader(st, t), "");
    StepBlank(AfterHeader(st, t));
  }

  lemma HeaderTexts(description: string, cron: string, zone: string)
    ensures "- " + "Schedule" + ": " + description == "- Schedule: " + description
    ensures "- " + "Cron" + ": " + ("`" + cron + "`") == "- Cron: `" + cron + "`"
    ensures "- " + "Time zone" + ": " + zone == "- Time zone: " + zone
  {
    assert "- " + "Schedule" + ": " == "- Schedule: ";
    assert "- " + "Cron" + ": " + "`" == "- Cron: `";
    assert "- " + "Cron" + ": " + ("`" + cron + "`") == ("- " + "Cron" + ": " + "`") + cron + "`";
    assert "- " + "Time zone" + ": " == "- Time zone: ";
  }

  lemma ScheduleIgnored(st: State, value: string)
    requires st.sections != []
    ensures WithCurrent(st, ReadBullet(Current(st), Bullet("schedule", value))) == st
  {}

  lemma CronRead(name: string, cron: string)
    requires StripInlineCode("`" + cron + "`") == cron
    ensures ReadBullet(NewSection(name), Bullet("cron", "`" + cron + "`")) == NewSection(name).(cron := cron)
    ensures forall zone ::
      ReadBullet(NewSection(name).(cron := cron), Bullet("time zone", zone))
      == NewSection(name).(cron := cron, timeZone := StripInlineCode(zone))
  {
    hide StripInlineCode;
  }

  lemma ScanSeven(st: State, lines: seq<string>, s1: State, s2: State, s3: State, s4: State, s5: State, s6: State)
    requires |lines| == 7
    requires Step(st, lines[0]) == s1 && Step(s1, lines[1]) == s2 && Step(s2, lines[2]) == s3 && Step(s3, lines[3]) == s4
    requires Step(s4, lines[4]) == s5 && Step(s5, lines[5]) == s6
    ensures Scan(st, lines) == Step(s6, lines[6])
  {
    hide Step, Scan;
    var l := lines;
    assert l == [l[0]] + ([l[1]] + ([l[2]] + ([l[3]] + ([l[4]] + ([l[5]] + [l[6]])))));
    ScanConcat(st, [l[0]], [l[1]] + ([l[2]] + ([l[3]] + ([l[4]] + ([l[5]] + [l[6]])))));
    ScanConcat(s1, [l[1]], [l[2]] + ([l[3]] + ([l[4]] + ([l[5]] + [l[6]]))));
    ScanConcat(s2, [l[2]], [l[3]] + ([l[4]] + ([l[5]] + [l[6]])));
    ScanConcat(s3, [l[3]], [l[4]] + ([l[5]] + [l[6]]));
    ScanConcat(s4, [l[4]], [l[5]] + [l[6]]);
    ScanConcat(s5, [l[5]], [l[6]]);
    ScanOne(st, l[0]);
    ScanOne(s1, l[1]);
    ScanOne(s2, l[2]);
    ScanOne(s3, l[3]);
    ScanOne(s4, l[4]);
    ScanOne(s5, l[5]);
    ScanOne(s6, l[6]);
  }

  // ---------------------------------------------------------------------------
  // Body lines

  /** The state reading a body: the current section has the given lines so far. */
  function InBody(st: State, section: Section, lines: seq<string>, fence: string): State {
    State(st.sections + [section.(instructions := lines, fenced := fence != "")], true, true, fence, false)
  }

  lemma StepBareLine(st: State, section: Section, lines: seq<string>, line: string)
    requires !IsRisky(line)
    ensures Step(InBody(st, section, lines, ""), line) == InBody(st, section, lines + [line], "")
  {
    hide FenceOf, Trim, BulletOf, HasLineTerminator;
    if line != "" && line[0] == '#' {
      InkIsNotSpace();
      InkLine(line);
    }
    NoNumberSignNoHeading(line);
    hide HeadingOf;
    var before := InBody(st, section, lines, "");
    assert before.sections[..|before.sections| - 1] == st.sections;
  }

  lemma {:induction false} ScanBareLines(st: State, section: Section, lines: seq<string>, more: seq<string>)
    requires forall k :: 0 <= k < |more| ==> !IsRisky(more[k])
    ensures Scan(InBody(st, section, lines, ""), more) == InBody(st, section, lines + more, "")
    decreases |more|
  {
    hide Step, IsRisky, InBody;
    if more == [] {
      assert lines + more == lines;
    } else {
      StepBareLine(st, section, lines, more[0]);
      ScanBareLines(st, section, lines + [more[0]], more[1..]);
      assert lines + [more[0]] + more[1..] == lines + more;
    }
  }

  lemma StepFencedLine(st: State, section: Section, lines: seq<string>, line: string, fence: string)
    requires fence != "" && !Closes(line, fence)
    ensures Step(InBody(st, section, lines, fence), line) == InBody(st, section, lines + [line], fence)
  {
    hide FenceOf, Trim, Closes;
    var before := InBody(st, section, lines, fence);
    assert before.sections[..|before.sections| - 1] == st.sections;
  }

  lemma {:induction false} ScanFencedLines(st: State, section: Section, lines: seq<string>, more: seq<string>, fence: string)
    requires fence != "" && forall k :: 0 <= k < |more| ==> !Closes(more[k], fence)
    ensures Scan(InBody(st, section, lines, fence), more) == InBody(st, section, lines + more, fence)
    decreases |more|
  {
    hide Step, Closes, InBody;
    if more == [] {
      assert lines + more == lines;
    } else {
      StepFencedLine(st, section, lines, more[0], fence);
      ScanFencedLines(st, section, lines + [more[0]], more[1..], fence);
      assert lines + [more[0]] + more[1..] == lines + more;
    }
  }

  // ----- no line of the body closes its fence

  lemma {:induction false} LongestAtLeastTrailing(s: string)
    ensures TrailingTicks(s) <= LongestTicks(s)
  {}

  lemma {:induction false} TrailingCount(s: string, n: nat)
    requires n <= |s| && forall i :: |s| - n <= i < |s| ==> s[i] == '`'
    ensures TrailingTicks(s) >= n
  {
    if n > 0 { TrailingCount(s[..|s| - 1], n - 1); }
  }

  /** A run of backticks anywhere in a text is no longer than the longest. */
  lemma {:induction false} RunWithinLongest(s: string, start: nat, n: nat)
    requires start + n <= |s| && forall i :: start <= i < start + n ==> s[i] == '`'
    ensures LongestTicks(s) >= n
    decreases |s|
  {
    if start + n == |s| {
      TrailingCount(s, n);
      LongestAtLeastTrailing(s);
    } else {
      RunWithinLongest(s[..|s| - 1], start, n);
    }
  }

  lemma {:induction false} PieceInside(pieces: seq<string>, k: nat) returns (before: string, after: string)
    requires k < |pieces|
    ensures Join(pieces, '\n') == before + pieces[k] + after
    decreases |pieces|
  {
    if |pieces| == 1 {
      before, after := "", "";
    } else if k == 0 {
      before, after := "", ['\n'] + Join(pieces[1..], '\n');
      assert Join(pieces, '\n') == "" + pieces[0] + (['\n'] + Join(pieces[1..], '\n'));
    } else {
      before, after := PieceInside(pieces[1..], k - 1);
      before := pieces[0] + ['\n'] + before;
    }
  }

  lemma {:induction false} RunOfCount(s: string, c: char)
    ensures forall i :: 0 <= i < RunOf(s, c) ==> s[i] == c
  {
    if s != "" && s[0] == c { RunOfCount(s[1..], c); }
  }

  lemma NoLineCloses(body: string, k: nat)
    requires k < |Split(body, '\n')|
    ensures !Closes(Split(body, '\n')[k], FenceFor(body))
  {
    hide LongestTicks, Split;
    var line, fence := Split(body, '\n')[k], FenceFor(body);
    FenceIsTicks(body);
    JoinOfSplit(body, '\n');
    var before, after := PieceInside(Split(body, '\n'), k);
    TrimStartFacts(line);
    var t := TrimStart(line);
    var n := RunOf(t, '`');
    RunOfCount(t, '`');
    var start := |before| + (|line| - |t|);
    forall i | start <= i < start + n
      ensures body[i] == '`'
    {
      assert body[i] == line[i - |before|] == t[i - start];
    }
    RunWithinLongest(body, start, n);
  }

  // ----- the whole section

  function BodyOf(t: Template): string {
    if NeedsFence(t.instructions) then t.instructions else Trim(t.instructions)
  }

  /** The section the importer builds for an exported template. */
  function SectionOf(t: Template): Section {
    Section(Trim(t.name), Cron.Normalize(t.cron), StripInlineCode(Trim(t.timeZone)),
            if IsEmptyBody(t) then [] else Split(BodyOf(t), '\n'), NeedsFence(t.instructions), [])
  }

  function AfterSection(st: State, t: Template): State {
    State(st.sections + [SectionOf(t)], true, !NeedsFence(t.instructions), "", IsEmptyBody(t))
  }

  function HeaderSection(t: Template): Section {
    Section(Trim(t.name), Cron.Normalize(t.cron), StripInlineCode(Trim(t.timeZone)), [], false, [])
  }

  lemma StepOpenFence(st: State, section: Section, n: nat)
    requires n >= 3 && section.instructions == [] && !section.fenced
    ensures Step(State(st.sections + [section], true, true, "", true), Ticks(n)) == InBody(st, section, [], Ticks(n))
  {
    FenceOfTicks(n);
    hide FenceOf, Trim, ReadLine;
    assert (st.sections + [section])[..|st.sections|] == st.sections;
  }

  lemma StepCloseFence(st: State, section: Section, lines: seq<string>, n: nat)
    requires n >= 3
    ensures Step(InBody(st, section, lines, Ticks(n)), Ticks(n))
         == InBody(st, section, lines, Ticks(n)).(openFence := "", inInstructions := false)
  {
    FenceOfTicks(n);
    hide FenceOf, Trim, ReadLine;
  }

  lemma FencedLines(body: string)
    requires NeedsFence(body)
    ensures var fence := FenceFor(body);
      fence == Ticks(|fence|) && fence != "" && Flatten(BodyPieces(body)) == [fence] + (Split(body, '\n') + [fence])
  {
    var fence := FenceFor(body);
    FenceIsTicks(body);
    SplitPieces(fence, '\n');
    hide FenceFor, Split, NeedsFence, Ticks;
    assert BodyPieces(body) == [fence, body, fence] && [fence, body, fence][1..] == [body, fence]
        && [body, fence][1..] == [fence] && [fence][1..] == [];
    assert Flatten([fence]) == [fence] + [];
    assert Flatten([body, fence]) == Split(body, '\n') + [fence];
  }

  lemma ScanFencedBody(st: State, t: Template)
    requires NeedsFence(t.instructions)
    ensures Scan(AfterHeader(st, t), Flatten(BodyPieces(t.instructions))) == AfterSection(st, t)
  {
    var fence, body, section := FenceFor(t.instructions), t.instructions, HeaderSection(t);
    var n := |fence|;
    FenceIsTicks(body);
    FencedLines(body);
    var lines := Split(body, '\n');
    hide Step, Scan, InBody, FenceFor, Split, NeedsFence, Trim, Cron.Normalize, StripInlineCode, Closes, Ticks, Flatten, BodyPieces,
      AfterSection;
    var s0 := AfterHeader(st, t);
    StepOpenFence(st, section, n);
    forall k | 0 <= k < |lines|
      ensures !Closes(lines[k], fence)
    {
      NoLineCloses(body, k);
    }
    var s1 := InBody(st, section, [], fence);
    ScanConcat(s0, [fence], lines + [fence]);
    ScanOne(s0, fence);
    ScanConcat(s1, lines, [fence]);
    ScanFencedLines(st, section, [], lines, fence);
    assert [] + lines == lines;
    ScanOne(InBody(st, section, lines, fence), fence);
    StepCloseFence(st, section, lines, n);
    FencedEnd(st, t, lines, fence);
  }

  lemma FencedEnd(st: State, t: Template, lines: seq<string>, fence: string)
    requires NeedsFence(t.instructions) && lines == Split(t.instructions, '\n') && fence != ""
    ensures InBody(st, HeaderSection(t), lines, fence).(openFence := "", inInstructions := false) == AfterSection(st, t)
  {
    hide NeedsFence, Split, Trim, Cron.Normalize, StripInlineCode;
  }

  // The first line of a bare body is not blank and opens no fence.
  lemma StepFirstBare(st: State, section: Section, line: string)
    requires !IsRisky(line) && Trim(line) != "" && section.instructions == [] && !section.fenced
    ensures Step(State(st.sections + [section], true, true, "", true), line) == InBody(st, section, [line], "")
  {
    StepBareLine(st, section, [], line);
    assert [] + [line] == [line];
    hide FenceOf, Trim, ReadLine;
  }

  lemma ScanBareBody(st: State, t: Template)
    requires !NeedsFence(t.instructions)
    ensures Scan(AfterHeader(st, t), Flatten(BodyPieces(t.instructions))) == AfterSection(st, t)
  {
    var body, section := Trim(t.instructions), HeaderSection(t);
    assert body == t.instructions;
    var lines := Split(body, '\n');
    var b0, b1 := TrimFacts(t.instructions);
    SplitPieces("", '\n');
    TrimOfSpaces("");
    if body != "" {
      FirstLine(body);
      InkLine(lines[0]);
    }
    hide Step, Scan, InBody, Split, NeedsFence, Trim, Cron.Normalize, StripInlineCode, IsRisky;
    assert BodyPieces(t.instructions) == [body] && [body][1..] == [];
    assert Flatten([body]) == lines + [] == lines;
    var s0 := AfterHeader(st, t);
    if body == "" {
      assert lines == [""];
      ScanOne(s0, "");
      StepBlank(s0);
    } else {
      assert lines == [lines[0]] + lines[1..];
      BareLinesPlain(t, lines);
      ScanConcat(s0, [lines[0]], lines[1..]);
      ScanOne(s0, lines[0]);
      StepFirstBare(st, section, lines[0]);
      ScanBareLines(st, section, [lines[0]], lines[1..]);
      BareEnd(st, t, lines);
    }
  }

  lemma BareLinesPlain(t: Template, lines: seq<string>)
    requires !NeedsFence(t.instructions) && lines == Split(t.instructions, '\n')
    ensures forall k :: 0 <= k < |lines| ==> !IsRisky(lines[k])
    ensures forall k :: 0 <= k < |lines[1..]| ==> !IsRisky(lines[1..][k])
  {
    hide IsRisky, Split, Trim;
  }

  lemma BareEnd(st: State, t: Template, lines: seq<string>)
    requires !NeedsFence(t.instructions) && Trim(t.instructions) == t.instructions != "" && lines == Split(t.instructions, '\n')
    ensures InBody(st, HeaderSection(t), lines, "") == AfterSection(st, t)
  {
    hide NeedsFence, Split, Trim, Cron.Normalize, StripInlineCode;
  }

  /** Reading the lines of a section adds that section, whatever came before. */
  lemma ScanSection(st: State, t: Template)
    requires st.openFence == "" && Findable(t) && Trim(t.timeZone) != ""
    ensures Scan(st, SectionLines(t)) == AfterSection(st, t)
  {
    hide Scan, HeaderPieces, BodyPieces, AfterHeader, AfterSection, Findable, Trim, NeedsFence, Flatten;
    ScanConcat(st, HeaderPieces(t), Flatten(BodyPieces(t.instructions)));
    ScanHeader(st, t);
    if NeedsFence(t.instructions) { ScanFencedBody(st, t); } else { ScanBareBody(st, t); }
  }
}
