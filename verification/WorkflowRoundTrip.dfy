/** What importing an exported file gives back, and exactly when that is what was
    exported. */
module WorkflowRoundTrip {
  import opened Text
  import opened WorkflowMarkdown
  import opened WorkflowLines
  import opened WorkflowScan
  import Cron

  // ---------------------------------------------------------------------------
  // Scanning the whole file

  function Sections(templates: seq<Template>): (sections: seq<Section>)
    ensures |sections| == |templates|
  {
    seq(|templates|, i requires 0 <= i < |templates| => SectionOf(templates[i]))
  }

  ghost predicate AllFindable(templates: seq<Template>) {
    forall i :: 0 <= i < |templates| ==> Findable(templates[i]) && Trim(templates[i].timeZone) != ""
  }

  lemma StepTitle()
    ensures Step(Start(), HEADING) == Start()
    ensures HEADING != "" && HEADING[0] == '#'
  {
    var title := "OpenAgentFleet workflows";
    TitleIsText(title);
    HeadingLine(1, title);
    HeadingText(title);
    hide HeadingOf, FenceOf, Trim, BulletOf, IsTrimmed, HasLineTerminator, Signs;
  }

  lemma HeadingText(title: string)
    requires title == "OpenAgentFleet workflows"
    ensures Signs(1) + " " + title == HEADING
  {
    assert Signs(1) + " " == "# ";
    assert HEADING == "# " + title;
  }

  lemma TitleIsText(title: string)
    requires title == "OpenAgentFleet workflows"
    ensures IsTrimmed(title) && !HasLineTerminator(title)
  {}

  lemma StepOutside(line: string)
    requires line != "" ==> line[0] != '#'
    ensures Step(Start(), line) == Start()
  {
    NoNumberSignNoHeading(line);
    hide HeadingOf, FenceOf, Trim, BulletOf;
  }

  lemma ScanPreamble()
    ensures Scan(Start(), PreambleLines()) == Start()
  {
    hide Step, Scan, Start;
    var p := PreambleLines();
    StepTitle();
    StepOutside("");
    StepOutside(PREAMBLE_FIRST);
    StepOutside(PREAMBLE_SECOND);
    assert p == [HEADING] + ([""] + ([PREAMBLE_FIRST] + ([PREAMBLE_SECOND] + [""])));
    ScanConcat(Start(), [HEADING], [""] + ([PREAMBLE_FIRST] + ([PREAMBLE_SECOND] + [""])));
    ScanConcat(Start(), [""], [PREAMBLE_FIRST] + ([PREAMBLE_SECOND] + [""]));
    ScanConcat(Start(), [PREAMBLE_FIRST], [PREAMBLE_SECOND] + [""]);
    ScanConcat(Start(), [PREAMBLE_SECOND], [""]);
    ScanOne(Start(), HEADING);
    ScanOne(Start(), "");
    ScanOne(Start(), PREAMBLE_FIRST);
    ScanOne(Start(), PREAMBLE_SECOND);
  }

  lemma {:induction false} ScanSections(templates: seq<Template>)
    requires AllFindable(templates)
    ensures var st := Scan(Start(), AllSectionLines(templates));
      if templates == [] then st == Start()
      else st == State(Sections(templates), true, !NeedsFence(templates[|templates| - 1].instructions), "",
                       IsEmptyBody(templates[|templates| - 1]))
  {
    hide Scan, SectionLines, Findable, Trim, NeedsFence, IsEmptyBody, SectionOf;
    if templates == [] {
      ScanNothing(Start());
    } else {
      var k := |templates| - 1;
      ScanSections(templates[..k]);
      ScanConcat(Start(), AllSectionLines(templates[..k]), SectionLines(templates[k]));
      var st := Scan(Start(), AllSectionLines(templates[..k]));
      ScanSection(st, templates[k]);
      assert Sections(templates) == Sections(templates[..k]) + [SectionOf(templates[k])];
    }
  }

  lemma ScanNothing(st: State)
    ensures Scan(st, []) == st
  {}

  /** The line break at the end of the file may leave one blank line in a bare body. */
  function WithBlankLine(section: Section): Section {
    section.(instructions := section.instructions + [""])
  }

  ghost predicate SameButBlank(section: Section, t: Template) {
    section == SectionOf(t) || (section == WithBlankLine(SectionOf(t)) && !NeedsFence(t.instructions) && !IsEmptyBody(t))
  }

  // The line after the last section.
  lemma StepEnd(sections: seq<Section>, t: Template)
    requires sections != [] && sections[|sections| - 1] == SectionOf(t)
    ensures var st := State(sections, true, !NeedsFence(t.instructions), "", IsEmptyBody(t));
      var after := Step(st, "").sections;
      && |after| == |sections|
      && after[..|after| - 1] == sections[..|sections| - 1]
      && SameButBlank(after[|after| - 1], t)
  {
    var st := State(sections, true, !NeedsFence(t.instructions), "", IsEmptyBody(t));
    TrimOfSpaces("");
    NoNumberSignNoHeading("");
    assert BulletOf("").None?;
    assert FenceOf("").None?;
    hide HeadingOf, FenceOf, BulletOf, Trim, NeedsFence, SectionOf;
    if IsEmptyBody(t) {
      assert Step(st, "") == st;
    } else if NeedsFence(t.instructions) {
      assert Step(st, "") == st;
    } else {
      assert Step(st, "") == PushLine(st, "");
    }
  }

  ghost predicate ScannedAs(sections: seq<Section>, templates: seq<Template>) {
    |sections| == |templates| && forall i :: 0 <= i < |sections| ==> SameButBlank(sections[i], templates[i])
  }

  lemma SameAsItself(templates: seq<Template>)
    ensures forall i :: 0 <= i < |templates| ==> SameButBlank(Sections(templates)[i], templates[i])
  {
    hide SectionOf;
  }

  lemma EmptyBodyLines(t: Template)
    requires IsEmptyBody(t)
    ensures |HeaderPieces(t)| == 8 && SectionLines(t) == HeaderPieces(t)[..7] + ["", ""]
    ensures SectionOf(t) == HeaderSection(t)
  {
    hide HeaderPieces, Split, Trim, NeedsFence, Cron.Normalize, StripInlineCode;
    SplitPieces("", '\n');
    HeaderBlank(t);
    assert [""][1..] == [];
    assert Flatten([""]) == [""] + [];
  }

  lemma ScannedStart(templates: seq<Template>, st: State)
    requires AllFindable(templates) && st == Scan(Start(), AllSectionLines(templates))
    ensures st.openFence == "" && st.sections == Sections(templates)
  {
    hide Scan, SectionLines, Findable, Trim, NeedsFence, IsEmptyBody, SectionOf, AllSectionLines;
    ScanSections(templates);
  }

  // After an empty body the file ends in one blank line, which is skipped.
  lemma ScanEmptyEnd(templates: seq<Template>)
    requires templates != [] && AllFindable(templates) && IsEmptyBody(templates[|templates| - 1])
    ensures Scan(Start(), ExportLines(templates)).sections == Sections(templates)
  {
    hide Scan, Step, Findable, Trim, PreambleLines, Start, IsEmptyBody, HeaderPieces, SectionLines, SectionOf;
    var k := |templates| - 1;
    var t := templates[k];
    EmptyBodyLines(t);
    var front := PreambleLines() + AllSectionLines(templates[..k]);
    var header := HeaderPieces(t)[..7];
    assert PreambleLines() + AllSectionLines(templates) == front + header + ["", ""];
    assert ExportLines(templates) == front + header + [""];
    ScanPreamble();
    ScanSections(templates[..k]);
    ScanConcat(Start(), PreambleLines(), AllSectionLines(templates[..k]));
    var st := Scan(Start(), front);
    ScannedStart(templates[..k], st);
    assert Findable(t) && Trim(t.timeZone) != "";
    ScanHeaderStart(st, t);
    ScanConcat(Start(), front, header);
    ScanConcat(Start(), front + header, [""]);
    ScanOne(AfterHeader(st, t), "");
    StepBlank(AfterHeader(st, t));
    assert Sections(templates) == Sections(templates[..k]) + [SectionOf(t)];
  }

  lemma ScanInkEnd(templates: seq<Template>)
    requires templates != [] && AllFindable(templates) && !IsEmptyBody(templates[|templates| - 1])
    ensures ScannedAs(Scan(Start(), ExportLines(templates)).sections, templates)
  {
    hide Scan, Step, Findable, Trim, PreambleLines, Start, IsEmptyBody, NeedsFence, SectionOf, AllSectionLines, SameButBlank;
    var t := templates[|templates| - 1];
    var all := PreambleLines() + AllSectionLines(templates);
    ScanPreamble();
    ScanSections(templates);
    ScanConcat(Start(), PreambleLines(), AllSectionLines(templates));
    var st := Scan(Start(), all);
    ScanConcat(Start(), all, [""]);
    ScanOne(st, "");
    StepEnd(st.sections, t);
    SameAsItself(templates);
  }

  /** Scanning the lines of an exported file finds the sections of its templates. */
  lemma ScanExport(templates: seq<Template>)
    requires templates != [] && AllFindable(templates)
    ensures ScannedAs(Scan(Start(), ExportLines(templates)).sections, templates)
  {
    hide Scan, ExportLines, IsEmptyBody, SameButBlank;
    if IsEmptyBody(templates[|templates| - 1]) {
      ScanEmptyEnd(templates);
      SameAsItself(templates);
    } else {
      ScanInkEnd(templates);
    }
  }

  // ---------------------------------------------------------------------------
  // Lines of the file, carriage returns included

  lemma NoCarriageReturn(lines: seq<string>, text: string)
    requires Split(text, '\n') == lines
    requires forall k :: 0 <= k < |lines| ==> '\r' !in lines[k]
    ensures Lines(text) == lines
  {
    hide Split;
    forall k | 0 <= k < |lines|
      ensures Lines(text)[k] == lines[k]
    {
      if lines[k] != "" { assert lines[k][|lines[k]| - 1] in lines[k]; }
    }
  }

  ghost predicate NoReturns(lines: seq<string>) {
    forall k :: 0 <= k < |lines| ==> '\r' !in lines[k]
  }

  lemma {:induction false} FlattenNoReturns(pieces: seq<string>)
    requires NoReturns(pieces)
    ensures NoReturns(Flatten(pieces))
  {
    hide Split;
    if pieces != [] {
      FlattenNoReturns(pieces[1..]);
      var lines := Split(pieces[0], '\n');
      forall k | 0 <= k < |lines|
        ensures '\r' !in lines[k]
      {
        if '\r' in lines[k] {
          var i :| 0 <= i < |lines[k]| && lines[k][i] == '\r';
          SplitChars(pieces[0], '\n', k, i);
        }
      }
    }
  }

  lemma NoReturnsConcat(a: seq<string>, b: seq<string>)
    requires NoReturns(a) && NoReturns(b)
    ensures NoReturns(a + b)
  {}

  lemma SectionNoReturns(t: Template)
    requires Findable(t)
    ensures NoReturns(SectionLines(t))
  {
    hide HeaderPieces, Trim, Flatten, FenceFor, NeedsFence;
    FindableNoBreaks(t);
    HeaderNoBreaks(t);
    assert NoReturns(HeaderPieces(t));
    FenceIsTicks(t.instructions);
    var before, after := TrimFacts(t.instructions);
    BodyNoReturn(t.instructions, before, Trim(t.instructions), after);
    assert NoReturns(BodyPieces(t.instructions));
    FlattenNoReturns(BodyPieces(t.instructions));
    NoReturnsConcat(HeaderPieces(t), Flatten(BodyPieces(t.instructions)));
  }

  lemma BodyNoReturn(body: string, before: string, middle: string, after: string)
    requires CleanBody(body) && body == before + middle + after
    ensures '\r' !in body && '\r' !in middle
  {
    forall i | 0 <= i < |middle|
      ensures middle[i] != '\r'
    {
      assert middle[i] == body[|before| + i];
    }
  }

  lemma {:induction false} AllNoReturns(templates: seq<Template>)
    requires AllFindable(templates)
    ensures NoReturns(AllSectionLines(templates))
  {
    hide SectionLines, Findable, Trim, NoReturns;
    if templates == [] {
      NothingReturns();
    } else {
      var k := |templates| - 1;
      AllNoReturns(templates[..k]);
      SectionNoReturns(templates[k]);
      NoReturnsConcat(AllSectionLines(templates[..k]), SectionLines(templates[k]));
    }
  }

  lemma NothingReturns()
    ensures NoReturns([]) && NoReturns([""])
  {}

  lemma PreambleNoReturns()
    ensures NoReturns(PreambleLines())
  {
    PreambleNoBreaks();
  }

  /** The importer sees the exported lines. */
  lemma LinesOfExport(templates: seq<Template>)
    requires templates != [] && AllFindable(templates)
    ensures Lines(Export(templates)) == ExportLines(templates)
  {
    hide Split, Findable, Trim, Export, PreambleLines, AllSectionLines, Lines, IsEmptyBody;
    ExportSplits(templates);
    AllNoReturns(templates);
    PreambleNoReturns();
    var all := PreambleLines() + AllSectionLines(templates);
    NoReturnsConcat(PreambleLines(), AllSectionLines(templates));
    if |all| >= 2 { NoReturnsConcat(all[..|all| - 2], [""]); }
    NoReturnsConcat(all, [""]);
    NoCarriageReturn(ExportLines(templates), Export(templates));
  }

  // ---------------------------------------------------------------------------
  // From sections back to templates

  /** What the importer makes of an exported template. */
  function Imported(t: Template): Template {
    Template(Trim(t.name), t.instructions, Cron.Normalize(t.cron), Trim(StripInlineCode(Trim(t.timeZone))))
  }

  /** What an exact copy would be: name and zone trimmed, cron in normal form. */
  function Expected(t: Template): Template {
    Template(Trim(t.name), t.instructions, Cron.Normalize(t.cron), Trim(t.timeZone))
  }

  lemma BodyComesBack(section: Section, t: Template)
    requires SameButBlank(section, t) && CleanBody(t.instructions)
    ensures var body := StripControl(Join(section.instructions, '\n'), true);
      (if section.fenced then body else Trim(body)) == t.instructions
  {
    hide Split, Trim, NeedsFence, Cron.Normalize, StripInlineCode, StripControl, CleanBody;
    var body := BodyOf(t);
    if NeedsFence(t.instructions) {
      JoinOfSplit(t.instructions, '\n');
      StripControlOfClean(t.instructions, true);
    } else {
      BareIsTrimmed(t);
      JoinOfSplit(body, '\n');
      if IsEmptyBody(t) {
        StripControlOfEmpty();
      } else if section == SectionOf(t) {
        StripControlOfClean(t.instructions, true);
      } else {
        var lines := Split(body, '\n');
        JoinConcat(lines, [""], '\n');
        assert Join([""], '\n') == "";
        assert Join(lines + [""], '\n') == body + "\n";
        CleanWithBreak(body);
        StripControlOfClean(body + "\n", true);
        var before, after := TrimFacts(body);
        BreakIsSpace();
        TrimPadded("", body, "\n");
        assert "" + body + "\n" == body + "\n";
      }
    }
  }

  lemma BareIsTrimmed(t: Template)
    requires !NeedsFence(t.instructions)
    ensures Trim(t.instructions) == t.instructions && BodyOf(t) == t.instructions
  {
    hide Trim, Split;
  }

  lemma StripControlOfEmpty()
    ensures Join([], '\n') == "" && StripControl("", true) == "" && Trim("") == ""
  {
    TrimOfSpaces("");
  }

  lemma BreakIsSpace()
    ensures AllSpace("\n") && AllSpace("")
  {}

  lemma CleanWithBreak(body: string)
    requires CleanBody(body)
    ensures CleanBody(body + "\n")
  {}

  lemma TemplateComesBack(section: Section, t: Template)
    requires SameButBlank(section, t) && Findable(t)
    ensures TemplateOf(section) == Imported(t) && section.ignoredKeys == []
  {
    hide Trim, NeedsFence, StripInlineCode, StripControl, CleanBody, CleanName, Join, Split, Cron.Normalize;
    BodyComesBack(section, t);
    StripControlOfClean(Trim(t.name), false);
    var before, after := TrimFacts(t.name);
    TrimOfTrimmed(Trim(t.name));
    Cron.NormalizeTwice(t.cron);
  }

  // ---------------------------------------------------------------------------
  // Collecting the templates

  ghost predicate AllValid(templates: seq<Template>, zones: string -> bool) {
    forall i :: 0 <= i < |templates| ==> Problems(templates[i], zones) == []
  }

  function MapImported(templates: seq<Template>): (imported: seq<Template>)
    ensures |imported| == |templates|
    ensures forall i :: 0 <= i < |templates| ==> imported[i] == Imported(templates[i])
  {
    seq(|templates|, i requires 0 <= i < |templates| => Imported(templates[i]))
  }

  function MapExpected(templates: seq<Template>): (expected: seq<Template>)
    ensures |expected| == |templates|
    ensures forall i :: 0 <= i < |templates| ==> expected[i] == Expected(templates[i])
  {
    seq(|templates|, i requires 0 <= i < |templates| => Expected(templates[i]))
  }

  /** Collecting succeeds exactly when every section describes a valid template. */
  lemma {:induction false} CollectAll(sections: seq<Section>, zones: string -> bool)
    requires forall i :: 0 <= i < |sections| ==> sections[i].ignoredKeys == []
    ensures var result := Collect(sections, zones);
      && result.warnings == []
      && (result.errors == [] <==> forall i :: 0 <= i < |sections| ==> Problems(TemplateOf(sections[i]), zones) == [])
      && (result.errors == [] ==>
            |result.templates| == |sections|
            && forall i :: 0 <= i < |sections| ==> result.templates[i] == TemplateOf(sections[i]))
  {
    hide TemplateOf, Problems, Label;
    if sections != [] {
      CollectAll(sections[..|sections| - 1], zones);
    }
  }

  /** Importing an exported file, for templates whose sections can be found again. */
  lemma ImportOfExport(templates: seq<Template>, zones: string -> bool)
    requires templates != [] && AllFindable(templates)
    ensures var result := ImportOf(Export(templates), zones);
      && (result.errors == [] <==> AllValid(MapImported(templates), zones))
      && (result.errors == [] ==> result == Import(MapImported(templates), [], []))
  {
    hide Scan, Export, Lines, Findable, Trim, SameButBlank, TemplateOf, Problems, Collect, Imported, ExportLines;
    LinesOfExport(templates);
    ScanExport(templates);
    var sections := Scan(Start(), ExportLines(templates)).sections;
    forall i | 0 <= i < |sections|
      ensures TemplateOf(sections[i]) == Imported(templates[i]) && sections[i].ignoredKeys == []
    {
      TemplateComesBack(sections[i], templates[i]);
    }
    CollectAll(sections, zones);
    var result := Collect(sections, zones);
    assert sections != [];
    if result.errors == [] {
      assert result.templates == MapImported(templates);
    }
  }

  // ---------------------------------------------------------------------------
  // What any import yields

  ghost predicate OneLine(section: Section) {
    !HasLineTerminator(section.name) && !HasLineTerminator(section.timeZone)
  }

  ghost predicate AllOneLine(sections: seq<Section>) {
    forall i :: 0 <= i < |sections| ==> OneLine(sections[i])
  }

  lemma TrimOneLine(s: string)
    requires !HasLineTerminator(s)
    ensures !HasLineTerminator(Trim(s))
  {
    hide Trim;
    var before, after := TrimFacts(s);
    SubOneLine(before, Trim(s), after);
  }

  lemma SubOneLine(before: string, middle: string, after: string)
    requires !HasLineTerminator(before + middle + after)
    ensures !HasLineTerminator(middle)
  {
    var all := before + middle + after;
    forall i | 0 <= i < |middle|
      ensures !IsLineTerminator(middle[i])
    {
      assert middle[i] == all[|before| + i];
    }
  }

  lemma StripOneLine(value: string)
    requires !HasLineTerminator(value)
    ensures !HasLineTerminator(StripInlineCode(value))
  {
    hide Trim;
    TrimOneLine(value);
    var t := Trim(value);
    if IsInlineCode(t) { TrimOneLine(t[1..|t| - 1]); }
  }

  lemma BulletOneLine(line: string)
    ensures BulletOf(line).Some? ==> !HasLineTerminator(BulletOf(line).value.value)
  {
    hide Trim, TrimStart, HasLineTerminator, Lower;
    if BulletOf(line).Some? {
      var t := Trim(line);
      TrimOneLine(TrimStart(t[1..][IndexOf(t[1..], ':') + 1..]));
    }
  }

  lemma HeadingOneLine(line: string)
    ensures HeadingOf(line).Some? ==> !HasLineTerminator(HeadingOf(line).value.text)
  {
    hide Trim, TrimStart, HasLineTerminator;
    if HeadingOf(line).Some? { TrimOneLine(TrimStart(line[RunOf(line, '#')..])); }
  }

  lemma NothingOneLine()
    ensures !HasLineTerminator("")
  {}

  lemma ReadBulletOneLine(section: Section, bullet: Bullet)
    requires OneLine(section) && !HasLineTerminator(bullet.value)
    ensures OneLine(ReadBullet(section, bullet))
  {
    hide StripInlineCode, HasLineTerminator;
    StripOneLine(bullet.value);
  }

  lemma ReadLineOneLine(st: State, line: string)
    requires AllOneLine(st.sections)
    ensures AllOneLine(ReadLine(st, line).sections)
  {
    hide HeadingOf, BulletOf, Lower, ReadBullet, HasLineTerminator;
    HeadingOneLine(line);
    BulletOneLine(line);
    NothingOneLine();
    if st.sections != [] && BulletOf(line).Some? { ReadBulletOneLine(Current(st), BulletOf(line).value); }
  }

  lemma StepOneLine(st: State, line: string)
    requires AllOneLine(st.sections)
    ensures AllOneLine(Step(st, line).sections)
  {
    hide FenceOf, ReadLine, Trim, HasLineTerminator, Closes;
    ReadLineOneLine(st.(awaitingBody := false), line);
  }

  lemma {:induction false} ScanOneLine(st: State, lines: seq<string>)
    requires AllOneLine(st.sections)
    ensures AllOneLine(Scan(st, lines).sections)
    decreases |lines|
  {
    hide Step, AllOneLine;
    if lines != [] {
      StepOneLine(st, lines[0]);
      ScanOneLine(Step(st, lines[0]), lines[1..]);
    }
  }

  /** A template the importer hands out, whatever the file. */
  ghost predicate Tidy(t: Template) {
    CleanName(t.name) && CleanBody(t.instructions) && !HasLineTerminator(t.timeZone)
  }

  ghost predicate Settled(t: Template) {
    Tidy(t) && Expected(t) == t
  }

  ghost predicate AllTidy(templates: seq<Template>, zones: string -> bool) {
    forall i :: 0 <= i < |templates| ==> Settled(templates[i]) && Problems(templates[i], zones) == []
  }

  lemma TrimClean(s: string)
    ensures CleanName(s) ==> CleanName(Trim(s))
    ensures CleanBody(s) ==> CleanBody(Trim(s))
  {
    hide Trim;
    var before, after := TrimFacts(s);
    var all, middle := before + Trim(s) + after, Trim(s);
    forall i | 0 <= i < |middle|
      ensures middle[i] == all[|before| + i]
    {}
  }

  lemma TemplateIsTidy(section: Section)
    requires OneLine(section)
    ensures Settled(TemplateOf(section))
  {
    hide Trim, StripControl, CleanName, CleanBody, HasLineTerminator, Cron.Normalize, Join;
    StripControlIsClean(section.name, false);
    StripControlIsClean(Join(section.instructions, '\n'), true);
    TrimClean(StripControl(section.name, false));
    TrimClean(StripControl(Join(section.instructions, '\n'), true));
    TrimOneLine(section.timeZone);
    TrimTwice(StripControl(section.name, false));
    TrimTwice(section.timeZone);
    Cron.NormalizeTwice(section.cron);
  }

  lemma TrimTwice(s: string)
    ensures Trim(Trim(s)) == Trim(s)
  {
    hide Trim;
    var before, after := TrimFacts(s);
    TrimOfTrimmed(Trim(s));
  }

  lemma {:induction false} CollectTidy(sections: seq<Section>, zones: string -> bool)
    requires AllOneLine(sections)
    ensures AllTidy(Collect(sections, zones).templates, zones)
  {
    hide TemplateOf, Problems, Label, Settled, OneLine;
    if sections != [] {
      assert AllOneLine(sections[..|sections| - 1]);
      CollectTidy(sections[..|sections| - 1], zones);
      TemplateIsTidy(sections[|sections| - 1]);
    }
  }

  /** Importing any text yields only valid templates, trimmed and normalised, and free
      of control characters. */
  lemma ImportIsTidy(text: string, zones: string -> bool)
    ensures AllTidy(ImportOf(text, zones).templates, zones)
  {
    hide Scan, Lines, Collect, Settled, Problems;
    ScanOneLine(Start(), Lines(text));
    CollectTidy(Scan(Start(), Lines(text)).sections, zones);
  }

  // ---------------------------------------------------------------------------
  // The round trip

  lemma ValidImported(t: Template, zones: string -> bool)
    requires Problems(t, zones) == [] && CleanZone(Trim(t.timeZone))
    ensures Imported(t) == Expected(t) && Problems(Imported(t), zones) == []
  {
    hide Trim, Cron.Normalize, Cron.IsValid, Cron.Bytes, HasLineTerminator;
    var n0, n1 := TrimFacts(t.name);
    var z0, z1 := TrimFacts(t.timeZone);
    TrimOfTrimmed(Trim(t.name));
    TrimOfTrimmed(Trim(t.timeZone));
    Cron.NormalizeTwice(t.cron);
  }

  // A zone written as inline code loses its backticks.
  lemma CodeZoneShrinks(zone: string)
    requires IsInlineCode(zone) && IsTrimmed(zone)
    ensures Trim(StripInlineCode(zone)) != zone
  {
    hide Trim;
    TrimOfTrimmed(zone);
    var inner := zone[1..|zone| - 1];
    var b0, a0 := TrimFacts(inner);
    var b1, a1 := TrimFacts(Trim(inner));
  }

  lemma ValidIsNamed(t: Template, zones: string -> bool)
    requires Problems(t, zones) == []
    ensures Trim(t.name) != "" && Trim(t.timeZone) != ""
  {
    hide Trim, Cron.IsValid, Cron.Bytes;
  }

  lemma TidyIsFindable(t: Template, zones: string -> bool)
    requires Problems(t, zones) == [] && Tidy(Expected(t))
    ensures Findable(t) && Trim(t.timeZone) != ""
  {
    hide Trim, CleanName, CleanBody, HasLineTerminator, Problems, Cron.Normalize;
    ValidIsNamed(t, zones);
  }

  lemma ExactIsClean(t: Template)
    requires Findable(t) && Imported(t) == Expected(t)
    ensures CleanTemplate(t)
  {
    hide Trim, CleanName, CleanBody, HasLineTerminator, StripInlineCode, Cron.Normalize;
    var z0, z1 := TrimFacts(t.timeZone);
    if IsInlineCode(Trim(t.timeZone)) { CodeZoneShrinks(Trim(t.timeZone)); }
  }

  lemma CleanIsFindable(t: Template, zones: string -> bool)
    requires Problems(t, zones) == [] && CleanTemplate(t)
    ensures Findable(t) && Trim(t.timeZone) != ""
  {
    hide Trim, CleanName, CleanBody, HasLineTerminator, Problems, IsInlineCode;
    ValidIsNamed(t, zones);
  }

  /** Export and import are exact for a list of valid templates exactly when every
      template is clean: nothing lost, nothing reordered, no error and no warning. */
  lemma RoundTrip(templates: seq<Template>, zones: string -> bool)
    requires templates != [] && AllValid(templates, zones)
    ensures ImportOf(Export(templates), zones) == Import(MapExpected(templates), [], [])
       <==> forall i :: 0 <= i < |templates| ==> CleanTemplate(templates[i])
  {
    hide ImportOf, Export, Problems, Imported, Expected, CleanTemplate, Findable, Trim, Tidy;
    if forall i :: 0 <= i < |templates| ==> CleanTemplate(templates[i]) {
      RoundTripOfClean(templates, zones);
    }
    if ImportOf(Export(templates), zones) == Import(MapExpected(templates), [], []) {
      ImportIsTidy(Export(templates), zones);
      forall i | 0 <= i < |templates|
        ensures Findable(templates[i]) && Trim(templates[i].timeZone) != ""
      {
        assert Tidy(MapExpected(templates)[i]);
        TidyIsFindable(templates[i], zones);
      }
      ImportOfExport(templates, zones);
      forall i | 0 <= i < |templates|
        ensures CleanTemplate(templates[i])
      {
        assert MapImported(templates)[i] == MapExpected(templates)[i];
        ExactIsClean(templates[i]);
      }
    }
  }

  lemma RoundTripOfClean(templates: seq<Template>, zones: string -> bool)
    requires templates != [] && AllValid(templates, zones)
    requires forall i :: 0 <= i < |templates| ==> CleanTemplate(templates[i])
    ensures ImportOf(Export(templates), zones) == Import(MapExpected(templates), [], [])
  {
    hide ImportOf, Export, Problems, Imported, Expected, Findable, Trim, CleanName, CleanBody, CleanZone;
    forall i | 0 <= i < |templates|
      ensures Findable(templates[i]) && Trim(templates[i].timeZone) != ""
      ensures Imported(templates[i]) == Expected(templates[i]) && Problems(Imported(templates[i]), zones) == []
    {
      CleanIsFindable(templates[i], zones);
      ValidImported(templates[i], zones);
    }
    ImportOfExport(templates, zones);
    assert MapImported(templates) == MapExpected(templates);
  }

  lemma SettledIsClean(t: Template)
    requires Settled(t)
    ensures CleanTemplate(t) <==> !IsInlineCode(t.timeZone)
  {
    hide Trim, CleanName, CleanBody, HasLineTerminator, IsInlineCode, Cron.Normalize;
  }

  /** Whatever file was imported, exporting the result and importing it again changes
      nothing, exactly when no imported zone still looks like inline code. */
  lemma ReimportIsStable(text: string, zones: string -> bool)
    requires ImportOf(text, zones).templates != []
    ensures var templates := ImportOf(text, zones).templates;
      (ImportOf(Export(templates), zones) == Import(templates, [], []))
      <==> (forall i :: 0 <= i < |templates| ==> !IsInlineCode(templates[i].timeZone))
  {
    hide ImportOf, Export, Problems, Settled, CleanTemplate, IsInlineCode;
    ImportIsTidy(text, zones);
    var templates := ImportOf(text, zones).templates;
    RoundTrip(templates, zones);
    forall i | 0 <= i < |templates|
      ensures MapExpected(templates)[i] == templates[i]
      ensures CleanTemplate(templates[i]) <==> !IsInlineCode(templates[i].timeZone)
    {
      SettledIsClean(templates[i]);
      SettledAsExpected(templates[i]);
    }
    assert MapExpected(templates) == templates;
  }

  lemma SettledAsExpected(t: Template)
    requires Settled(t)
    ensures Expected(t) == t
  {
    hide Tidy;
  }
}
