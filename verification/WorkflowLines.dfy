/** The lines an exported workflow file consists of. */
module WorkflowLines {
  import opened Text
  import opened WorkflowMarkdown
  import Cron

  // ---------------------------------------------------------------------------
  // Characters that survive

  predicate CleanName(name: string) {
    forall i :: 0 <= i < |name| ==> !IsControl(name[i]) && !IsLineTerminator(name[i])
  }

  predicate CleanBody(body: string) {
    forall i :: 0 <= i < |body| ==> !IsControl(body[i]) || body[i] == '\n' || body[i] == '\t'
  }

  predicate CleanZone(zone: string) {
    !HasLineTerminator(zone) && !IsInlineCode(zone)
  }

  /** Name without control characters or line separators, body with no control
      characters but line feeds and tabs, and a zone on one line that is not written
      as inline code. */
  predicate CleanTemplate(t: Template) {
    CleanName(Trim(t.name)) && CleanBody(t.instructions) && CleanZone(Trim(t.timeZone))
  }

  // Enough for the importer to find the sections again.
  predicate Findable(t: Template) {
    CleanName(Trim(t.name)) && CleanBody(t.instructions) && !HasLineTerminator(Trim(t.timeZone)) && Trim(t.name) != ""
  }

  lemma {:induction false} StripControlOfClean(s: string, keep: bool)
    requires if keep then CleanBody(s) else CleanName(s)
    ensures StripControl(s, keep) == s
  {
    if s != "" { StripControlOfClean(s[..|s| - 1], keep); }
  }

  lemma {:induction false} StripControlIsClean(s: string, keep: bool)
    ensures keep ==> CleanBody(StripControl(s, keep))
    ensures !keep && !HasLineTerminator(s) ==> CleanName(StripControl(s, keep))
  {
    if s != "" {
      var front := s[..|s| - 1];
      StripControlIsClean(front, keep);
      if !HasLineTerminator(s) { assert !HasLineTerminator(front); }
    }
  }

  // ---------------------------------------------------------------------------
  // The lines of an exported file

  function Flatten(pieces: seq<string>): (lines: seq<string>)
    ensures pieces != [] ==> lines != []
  {
    if pieces == [] then [] else Split(pieces[0], '\n') + Flatten(pieces[1..])
  }

  lemma {:induction false} FlattenConcat(a: seq<string>, b: seq<string>)
    ensures Flatten(a + b) == Flatten(a) + Flatten(b)
  {
    hide Split;
    if a == [] {
      assert a + b == b;
    } else {
      assert (a + b)[1..] == a[1..] + b;
      FlattenConcat(a[1..], b);
    }
  }

  lemma {:induction false} SplitOfPieces(pieces: seq<string>)
    requires pieces != []
    ensures Split(Join(pieces, '\n'), '\n') == Flatten(pieces)
  {
    hide Split;
    if |pieces| == 1 {
      assert pieces[1..] == [];
    } else {
      SplitConcat(pieces[0], '\n', Join(pieces[1..], '\n'));
      SplitOfPieces(pieces[1..]);
    }
  }

  lemma {:induction false} FlattenPlain(pieces: seq<string>)
    requires forall k :: 0 <= k < |pieces| ==> '\n' !in pieces[k]
    ensures Flatten(pieces) == pieces
  {
    hide Split;
    if pieces != [] {
      SplitPieces(pieces[0], '\n');
      FlattenPlain(pieces[1..]);
    }
  }

  /** The lines a section is written as. */
  function SectionLines(t: Template): seq<string> {
    HeaderPieces(t) + Flatten(BodyPieces(t.instructions))
  }

  function AllSectionLines(templates: seq<Template>): seq<string> {
    if templates == [] then [] else AllSectionLines(templates[..|templates| - 1]) + SectionLines(templates[|templates| - 1])
  }

  ghost predicate NoBreaks(s: string) {
    forall i :: 0 <= i < |s| ==> s[i] != '\n' && s[i] != '\r'
  }

  lemma {:induction false} JoinNoBreaks(words: seq<string>)
    requires forall k :: 0 <= k < |words| ==> IsWord(words[k])
    ensures NoBreaks(Join(words, ' '))
  {
    if words != [] {
      NewlineIsSpace();
      if |words| > 1 { JoinNoBreaks(words[1..]); }
    }
  }

  lemma NewlineIsSpace()
    ensures IsSpace('\n') && IsSpace('\r') && IsSpace(' ') && IsSpace('\t')
  {}

  lemma NormalizedNoBreaks(cron: string)
    ensures NoBreaks(Cron.Normalize(cron))
  {
    WordsAreWords(cron);
    JoinNoBreaks(Words(cron));
  }

  lemma ClockNoBreaks(c: Cron.Clock)
    requires Cron.IsClock(c)
    ensures NoBreaks(Cron.FormatClock(c))
  {
    Cron.PadTwo(c.hour);
    Cron.PadTwo(c.minute);
    var h, m := Cron.Pad(Decimal(c.hour)), Cron.Pad(Decimal(c.minute));
    var t := Cron.FormatClock(c);
    assert t == h + ":" + m;
    assert IsDigit(h[0]) && IsDigit(h[1]) && IsDigit(m[0]) && IsDigit(m[1]);
    assert t[0] == h[0] && t[1] == h[1] && t[2] == ':' && t[3] == m[0] && t[4] == m[1];
  }

  lemma NoBreaksConcat(a: string, b: string)
    requires NoBreaks(a) && NoBreaks(b)
    ensures NoBreaks(a + b)
  {}

  lemma TimeOfSchedule(cron: string)
    requires Cron.CronToSchedule(cron).Some?
    ensures NoBreaks(Cron.CronToSchedule(cron).value.time)
  {
    hide Cron.FormatClock, Cron.ParseNumber, Cron.ValidField, Cron.Normalize, Split, Words;
    Cron.ValidWords(cron);
    var fields := Words(cron);
    Cron.NumberField(fields[0], 0, 59);
    Cron.NumberField(fields[1], 0, 23);
    ClockNoBreaks(Cron.Clock(Cron.ParseNumber(fields[1]).value, Cron.ParseNumber(fields[0]).value));
  }

  lemma PhrasesNoBreaks()
    ensures NoBreaks("Every day at ") && NoBreaks("Every weekday at ") && NoBreaks("Every ") && NoBreaks(" at ")
    ensures NoBreaks("Custom schedule (") && NoBreaks(")") && NoBreaks("Not a valid schedule")
  {}

  lemma DayNoBreaks(weekday: int)
    ensures NoBreaks(DayName(weekday))
  {}

  lemma DescriptionNoBreaks(cron: string)
    ensures NoBreaks(DescribeSchedule(cron))
  {
    hide Cron.CronToSchedule, Cron.IsValid, Cron.Normalize, NoBreaks, DayName;
    PhrasesNoBreaks();
    var schedule := Cron.CronToSchedule(cron);
    if schedule.Some? {
      TimeOfSchedule(cron);
      var time := schedule.value.time;
      NoBreaksConcat("Every day at ", time);
      NoBreaksConcat("Every weekday at ", time);
      if schedule.value.Weekly? {
        var day := DayName(schedule.value.weekday);
        DayNoBreaks(schedule.value.weekday);
        NoBreaksConcat("Every ", day);
        NoBreaksConcat("Every " + day, " at ");
        NoBreaksConcat("Every " + day + " at ", time);
      }
    } else {
      NormalizedNoBreaks(cron);
      NoBreaksConcat("Custom schedule (", Cron.Normalize(cron));
      NoBreaksConcat("Custom schedule (" + Cron.Normalize(cron), ")");
    }
  }

  lemma HeaderNoBreaks(t: Template)
    requires NoBreaks(Trim(t.name)) && NoBreaks(Trim(t.timeZone))
    ensures forall k :: 0 <= k < |HeaderPieces(t)| ==> NoBreaks(HeaderPieces(t)[k])
  {
    hide Cron.Normalize, DescribeSchedule, Trim;
    var cron := Cron.Normalize(t.cron);
    NormalizedNoBreaks(t.cron);
    DescriptionNoBreaks(cron);
    NoBreaksConcat("## ", Trim(t.name));
    NoBreaksConcat("- Schedule: ", DescribeSchedule(cron));
    NoBreaksConcat("- Cron: `", cron);
    NoBreaksConcat("- Cron: `" + cron, "`");
    NoBreaksConcat("- Time zone: ", Trim(t.timeZone));
  }

  // ---------------------------------------------------------------------------
  // First and last lines

  lemma {:induction false} SplitChars(s: string, sep: char, k: nat, i: nat)
    requires k < |Split(s, sep)| && i < |Split(s, sep)[k]|
    ensures Split(s, sep)[k][i] in s
    decreases |s|
  {
    if s != "" {
      var rest := Split(s[1..], sep);
      assert s == [s[0]] + s[1..];
      if s[0] == sep {
        SplitChars(s[1..], sep, k - 1, i);
      } else if k > 0 {
        SplitChars(s[1..], sep, k, i);
      } else if i > 0 {
        SplitChars(s[1..], sep, 0, i - 1);
      }
    }
  }

  lemma FirstLine(body: string)
    requires body != "" && !IsSpace(body[0])
    ensures Split(body, '\n')[0] != "" && Split(body, '\n')[0][0] == body[0]
  {
    NewlineIsSpace();
  }

  lemma {:induction false} LastLine(body: string)
    requires body != "" && !IsSpace(body[|body| - 1])
    ensures var lines := Split(body, '\n'); var last := lines[|lines| - 1];
      last != "" && last[|last| - 1] == body[|body| - 1]
    decreases |body|
  {
    NewlineIsSpace();
    if |body| == 1 {
      assert body[1..] == "";
    } else {
      LastLine(body[1..]);
    }
  }

  lemma EndsWithLast(lines: seq<string>) returns (before: string)
    requires lines != []
    ensures Join(lines, '\n') == before + lines[|lines| - 1]
  {
    var k := |lines| - 1;
    if k == 0 {
      before := "";
      assert lines == [lines[0]];
    } else {
      JoinConcat(lines[..k], [lines[k]], '\n');
      assert lines == lines[..k] + [lines[k]];
      before := Join(lines[..k], '\n') + ['\n'];
    }
  }

  // ---------------------------------------------------------------------------
  // The file as lines

  function PreambleLines(): seq<string> {
    [HEADING, "", PREAMBLE_FIRST, PREAMBLE_SECOND, ""]
  }

  predicate IsEmptyBody(t: Template) {
    !NeedsFence(t.instructions) && Trim(t.instructions) == ""
  }

  /** The lines of the exported file: trailing blank lines are cut to one line break. */
  function ExportLines(templates: seq<Template>): seq<string>
    requires templates != []
  {
    var all := PreambleLines() + AllSectionLines(templates);
    if IsEmptyBody(templates[|templates| - 1]) && |all| >= 2 then all[..|all| - 2] + [""] else all + [""]
  }

  lemma NewlineFree(s: string)
    requires NoBreaks(s)
    ensures '\n' !in s
  {}

  lemma SectionSplits(t: Template)
    requires Findable(t)
    ensures Split(SectionText(t), '\n') == SectionLines(t)
  {
    hide Split, HeaderPieces, BodyPieces, Trim, NoBreaks;
    FindableNoBreaks(t);
    HeaderNoBreaks(t);
    forall k | 0 <= k < |HeaderPieces(t)|
      ensures '\n' !in HeaderPieces(t)[k]
    {
      NewlineFree(HeaderPieces(t)[k]);
    }
    SplitOfPieces(HeaderPieces(t) + BodyPieces(t.instructions));
    FlattenConcat(HeaderPieces(t), BodyPieces(t.instructions));
    FlattenPlain(HeaderPieces(t));
  }

  lemma FindableNoBreaks(t: Template)
    requires Findable(t)
    ensures NoBreaks(Trim(t.name)) && NoBreaks(Trim(t.timeZone))
  {
    hide Trim;
  }

  lemma {:induction false} SectionsSplit(templates: seq<Template>)
    requires forall i :: 0 <= i < |templates| ==> Findable(templates[i])
    ensures Flatten(SectionTexts(templates)) == AllSectionLines(templates)
  {
    hide Split, SectionText, SectionLines, Findable;
    if templates != [] {
      var k := |templates| - 1;
      SectionsSplit(templates[..k]);
      assert SectionTexts(templates) == SectionTexts(templates[..k]) + [SectionText(templates[k])];
      FlattenConcat(SectionTexts(templates[..k]), [SectionText(templates[k])]);
      SectionSplits(templates[k]);
      assert [SectionText(templates[k])][1..] == [];
      assert Flatten([SectionText(templates[k])]) == SectionLines(templates[k]) + [];
    }
  }

  lemma PreambleNoBreaks()
    ensures NoBreaks(HEADING) && NoBreaks(PREAMBLE_FIRST) && NoBreaks(PREAMBLE_SECOND) && NoBreaks("")
  {
    PreambleParts();
    NoBreaksConcat("Each workflow below describes ", "what to run and when. Importing ");
    NoBreaksConcat("Each workflow below describes " + "what to run and when. Importing ", "one creates a");
    NoBreaksConcat("disabled routine: you choose ", "which agent owns it and turn ");
    NoBreaksConcat("disabled routine: you choose " + "which agent owns it and turn ", "it on yourself.");
    hide NoBreaks;
  }

  lemma PreambleParts()
    ensures NoBreaks("Each workflow below describes ") && NoBreaks("what to run and when. Importing ")
    ensures NoBreaks("one creates a") && NoBreaks("disabled routine: you choose ")
    ensures NoBreaks("which agent owns it and turn ") && NoBreaks("it on yourself.")
  {}

  lemma PreambleSplits()
    ensures Flatten(Preamble()) == PreambleLines()
  {
    hide Split, NoBreaks;
    PreambleNoBreaks();
    NewlineFree(HEADING);
    NewlineFree(PREAMBLE_FIRST);
    NewlineFree(PREAMBLE_SECOND);
    SplitPieces(HEADING, '\n');
    SplitPieces(PREAMBLE_FIRST, '\n');
    SplitPieces(PREAMBLE_SECOND, '\n');
    SplitPieces("", '\n');
    SplitConcat(PREAMBLE_FIRST, '\n', PREAMBLE_SECOND);
    var p := Preamble();
    assert p[1..] == [p[1], p[2], p[3]] && [p[1], p[2], p[3]][1..] == [p[2], p[3]] && [p[2], p[3]][1..] == [p[3]] && [p[3]][1..] == [];
    assert p[2] == PREAMBLE_FIRST + ['\n'] + PREAMBLE_SECOND;
    assert Flatten([p[3]]) == [""] + [];
    assert Flatten([p[2], p[3]]) == [PREAMBLE_FIRST, PREAMBLE_SECOND] + [""];
    assert Flatten([p[1], p[2], p[3]]) == [""] + ([PREAMBLE_FIRST, PREAMBLE_SECOND] + [""]);
  }

  predicate EndsBlank(lines: seq<string>) {
    |lines| >= 3 && lines[|lines| - 1] == "" && lines[|lines| - 2] == "" && lines[|lines| - 3] == "### Instructions"
  }

  predicate EndsInInk(lines: seq<string>) {
    lines != [] && lines[|lines| - 1] != "" && !IsSpace(lines[|lines| - 1][|lines[|lines| - 1]| - 1])
  }

  lemma EndOfConcat(a: seq<string>, b: seq<string>)
    ensures EndsBlank(b) ==> EndsBlank(a + b)
    ensures EndsInInk(b) ==> EndsInInk(a + b)
  {}

  // The last line of a section that is not blank ends the section in ink.
  lemma SectionEnds(t: Template)
    ensures IsEmptyBody(t) ==> EndsBlank(SectionLines(t))
    ensures !IsEmptyBody(t) ==> EndsInInk(SectionLines(t))
  {
    hide Split, Trim, NeedsFence, FenceFor, Cron.Normalize, DescribeSchedule;
    var pieces := BodyPieces(t.instructions);
    var header := HeaderPieces(t);
    SplitPieces("", '\n');
    if NeedsFence(t.instructions) {
      var fence := FenceFor(t.instructions);
      FenceIsTicks(t.instructions);
      SplitPieces(fence, '\n');
      assert pieces == [fence, t.instructions] + [fence];
      FlattenConcat([fence, t.instructions], [fence]);
      assert [fence][1..] == [];
      assert Flatten([fence]) == [fence] + [];
    } else {
      var body := Trim(t.instructions);
      assert pieces[1..] == [];
      assert Flatten(pieces) == Split(body, '\n') + [];
      if body != "" {
        var before, after := TrimFacts(t.instructions);
        LastLine(body);
      }
    }
  }

  lemma FenceIsTicks(body: string)
    ensures var f := FenceFor(body);
      |f| >= 3 && |f| > LongestTicks(body) && (forall i :: 0 <= i < |f| ==> f[i] == '`') && '\n' !in f && !IsSpace('`')
  {}

  lemma AllSectionEnds(templates: seq<Template>)
    requires templates != []
    ensures var t := templates[|templates| - 1]; var all := PreambleLines() + AllSectionLines(templates);
      && (IsEmptyBody(t) ==> EndsBlank(all))
      && (!IsEmptyBody(t) ==> EndsInInk(all))
  {
    hide SectionLines, PreambleLines, EndsBlank, EndsInInk, IsEmptyBody;
    var k := |templates| - 1;
    SectionEnds(templates[k]);
    EndOfConcat(AllSectionLines(templates[..k]), SectionLines(templates[k]));
    EndOfConcat(PreambleLines(), AllSectionLines(templates));
  }

  // Blank lines at the end are cut.
  lemma TrimBlankEnd(text: string, all: seq<string>)
    requires Split(text, '\n') == all && EndsBlank(all)
    ensures Split(TrimEnd(text) + "\n", '\n') == all[..|all| - 2] + [""]
  {
    hide Split, Join, TrimEnd;
    JoinOfSplit(text, '\n');
    var kept := all[..|all| - 2];
    assert all == kept + ["", ""];
    JoinConcat(kept, ["", ""], '\n');
    JoinOfBlanks();
    var before := EndsWithLast(kept);
    assert text == Join(kept, '\n') + "\n\n";
    InstructionsInk();
    TrimEndDrops(Join(kept, '\n'), "\n\n");
    SplitKeepsPieces(text, all, kept);
    SplitPieces("", '\n');
    SplitConcat(Join(kept, '\n'), '\n', "");
    assert Join(kept, '\n') + "\n" == Join(kept, '\n') + ['\n'] + "";
  }

  lemma TrimInkEnd(text: string, all: seq<string>)
    requires Split(text, '\n') == all && EndsInInk(all)
    ensures Split(TrimEnd(text) + "\n", '\n') == all + [""]
  {
    hide Split, Join, TrimEnd;
    JoinOfSplit(text, '\n');
    var before := EndsWithLast(all);
    TrimEndDrops(text, "");
    assert text + "" == text;
    SplitPieces("", '\n');
    SplitConcat(text, '\n', "");
    assert text + "\n" == text + ['\n'] + "";
  }

  /** The exported file has exactly those lines. */
  lemma ExportSplits(templates: seq<Template>)
    requires templates != [] && forall i :: 0 <= i < |templates| ==> Findable(templates[i])
    ensures Split(Export(templates), '\n') == ExportLines(templates)
  {
    hide Split, Join, TrimEnd, Findable, SectionLines, AllSectionLines, IsEmptyBody, PreambleLines, SectionTexts, Preamble,
         EndsInInk;
    var pieces := Preamble() + SectionTexts(templates);
    PreambleNotEmpty();
    var text := Join(pieces, '\n');
    var all := PreambleLines() + AllSectionLines(templates);
    SplitOfPieces(pieces);
    FlattenConcat(Preamble(), SectionTexts(templates));
    PreambleSplits();
    SectionsSplit(templates);
    assert Split(text, '\n') == all;
    AllSectionEnds(templates);
    if IsEmptyBody(templates[|templates| - 1]) {
      TrimBlankEnd(text, all);
    } else {
      TrimInkEnd(text, all);
    }
  }

  lemma PreambleNotEmpty()
    ensures Preamble() != []
  {}

  lemma JoinOfBlanks()
    ensures Join(["", ""], '\n') == "\n"
  {
    assert ["", ""][1..] == [""];
  }

  lemma InstructionsInk()
    ensures var line := "### Instructions"; !IsSpace(line[|line| - 1])
    ensures AllSpace("\n\n")
  {}

  lemma SplitKeepsPieces(text: string, all: seq<string>, kept: seq<string>)
    requires Split(text, '\n') == all && kept <= all && kept != []
    ensures Split(Join(kept, '\n'), '\n') == kept
  {
    SplitPieces(text, '\n');
    SplitOfJoin(kept, '\n');
  }
}
