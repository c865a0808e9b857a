/** What the importer makes of a file written by hand: an outline of sections, notes and bodies,
    and its meaning without the state machine. */
module WorkflowByHand {
  import opened Common
  import opened Text
  import opened WorkflowMarkdown
  import opened WorkflowLines
  import opened WorkflowScan
  import Cron

  // ---------------------------------------------------------------------------
  // The outline of a file

  /** A heading of level one or two. */
  predicate EndsSection(line: string) {
    HeadingOf(line).Some? && HeadingOf(line).value.level <= 2
  }

  predicate StartsSection(line: string) {
    HeadingOf(line).Some? && HeadingOf(line).value.level == 2
  }

  /** A deeper heading with the word instructions. */
  predicate IsTitle(line: string) {
    HeadingOf(line).Some? && HeadingOf(line).value.level >= 3 && Lower(HeadingOf(line).value.text) == "instructions"
  }

  ghost predicate AreNotes(lines: seq<string>) {
    forall k :: 0 <= k < |lines| ==> !EndsSection(lines[k]) && !IsTitle(lines[k])
  }

  ghost predicate AreBlank(lines: seq<string>) {
    forall k :: 0 <= k < |lines| ==> Trim(lines[k]) == ""
  }

  /** Notes, a title, and a body between two fences. */
  datatype Fenced = Fenced(notes: seq<string>, title: string, blanks: seq<string>, open: string, lines: seq<string>, close: string)

  /** A title and a body that goes on to the end of the section. */
  datatype Bare = NoBare | Bare(title: string, blanks: seq<string>, lines: seq<string>)

  /** A section: its heading, fenced bodies, more notes, a bare body, and what follows under a
      heading of level one. */
  datatype Written = Written(heading: string, fenced: seq<Fenced>, notes: seq<string>, bare: Bare, aside: seq<string>)

  ghost predicate IsFenced(b: Fenced) {
    && AreNotes(b.notes) && IsTitle(b.title) && AreBlank(b.blanks)
    && FenceOf(b.open).Some? && FenceOf(b.open).value != ""
    && (forall k :: 0 <= k < |b.lines| ==> !Closes(b.lines[k], FenceOf(b.open).value))
    && Closes(b.close, FenceOf(b.open).value)
  }

  ghost predicate IsBare(b: Bare) {
    b.Bare? ==>
      && IsTitle(b.title) && AreBlank(b.blanks)
      && (forall k :: 0 <= k < |b.lines| ==> !EndsSection(b.lines[k]))
      && (b.lines != [] ==> Trim(b.lines[0]) != "" && FenceOf(b.lines[0]).None?)
  }

  ghost predicate StartsNoSection(lines: seq<string>) {
    forall k :: 0 <= k < |lines| ==> !StartsSection(lines[k])
  }

  ghost predicate IsWritten(w: Written) {
    && StartsSection(w.heading) && AreNotes(w.notes) && IsBare(w.bare)
    && (forall k :: 0 <= k < |w.fenced| ==> IsFenced(w.fenced[k]))
    && StartsNoSection(w.aside) && (w.aside != [] ==> EndsSection(w.aside[0]))
  }

  function FencedLines(b: Fenced): seq<string> {
    b.notes + ([b.title] + (b.blanks + ([b.open] + (b.lines + [b.close]))))
  }

  function AllFencedLines(bodies: seq<Fenced>): seq<string> {
    if bodies == [] then [] else AllFencedLines(bodies[..|bodies| - 1]) + FencedLines(bodies[|bodies| - 1])
  }

  function BareLines(b: Bare): seq<string> {
    if b.NoBare? then [] else [b.title] + (b.blanks + b.lines)
  }

  function WrittenLines(w: Written): seq<string> {
    [w.heading] + (AllFencedLines(w.fenced) + (w.notes + (BareLines(w.bare) + w.aside)))
  }

  // ---------------------------------------------------------------------------
  // Its meaning

  function NotesOf(bodies: seq<Fenced>): seq<string> {
    if bodies == [] then [] else NotesOf(bodies[..|bodies| - 1]) + bodies[|bodies| - 1].notes
  }

  function BodiesOf(bodies: seq<Fenced>): seq<string> {
    if bodies == [] then [] else BodiesOf(bodies[..|bodies| - 1]) + bodies[|bodies| - 1].lines
  }

  predicate HasKey(line: string, keys: set<string>) {
    BulletOf(line).Some? && BulletOf(line).value.key in keys
  }

  /** The value of the last bullet with one of the keys. */
  function LastValue(lines: seq<string>, keys: set<string>, otherwise: string): string {
    if lines == [] then otherwise
    else
      var last := lines[|lines| - 1];
      if HasKey(last, keys) then StripInlineCode(BulletOf(last).value.value)
      else LastValue(lines[..|lines| - 1], keys, otherwise)
  }

  /** The keys the importer does not know, in order. */
  function UnknownKeys(lines: seq<string>): seq<string> {
    if lines == [] then []
    else
      var last := lines[|lines| - 1];
      UnknownKeys(lines[..|lines| - 1])
      + (if BulletOf(last).Some? && BulletOf(last).value.key !in {"cron", "time zone", "timezone", "schedule"}
         then [BulletOf(last).value.key] else [])
  }

  function AllNotes(w: Written): seq<string> {
    NotesOf(w.fenced) + w.notes
  }

  /** Cron and zone are the last given, spelt with or without a blank; the instructions are the
      lines of all bodies. */
  function Meant(w: Written): Section
    requires HeadingOf(w.heading).Some?
  {
    Section(HeadingOf(w.heading).value.text,
            LastValue(AllNotes(w), {"cron"}, ""),
            LastValue(AllNotes(w), {"time zone", "timezone"}, ""),
            BodiesOf(w.fenced) + (if w.bare.NoBare? then [] else w.bare.lines),
            w.fenced != [],
            UnknownKeys(AllNotes(w)))
  }

  // ---------------------------------------------------------------------------
  // States

  /** Reading notes; after a title; inside a fence; in a bare body. */
  function Noting(sections: seq<Section>, current: Section): State {
    State(sections + [current], true, false, "", false)
  }

  function Awaiting(sections: seq<Section>, current: Section): State {
    State(sections + [current], true, true, "", true)
  }

  function Fencing(sections: seq<Section>, current: Section, fence: string): State {
    State(sections + [current], true, true, fence, false)
  }

  function Reading(sections: seq<Section>, current: Section): State {
    State(sections + [current], true, true, "", false)
  }

  lemma LastSection(sections: seq<Section>, current: Section, other: Section)
    ensures (sections + [current])[..|sections|] == sections
    ensures WithCurrent(Noting(sections, current), other) == Noting(sections, other)
    ensures WithCurrent(Reading(sections, current), other) == Reading(sections, other)
  {
    assert (sections + [current])[..|sections|] == sections;
  }

  lemma HeadingIsNoFence(line: string)
    requires HeadingOf(line).Some?
    ensures FenceOf(line).None? && Trim(line) != "" && BulletOf(line).None?
  {
    assert line != "" && line[0] == '#';
    NumberSignIsNoFence(line);
    NumberSignIsNoBullet(line);
  }

  lemma NumberSignIsNoBullet(line: string)
    requires line != "" && line[0] == '#'
    ensures BulletOf(line).None?
  {
    InkIsNotSpace();
    var n0, n1 := TrimFacts(line);
    TrimStartsWithInk(line);
  }

  lemma TrimStartsWithInk(line: string)
    requires line != "" && !IsSpace(line[0])
    ensures Trim(line) != "" && Trim(line)[0] == line[0]
  {
    InkLine(line);
    TrimEndFacts(line);
  }

  lemma StepHeading(st: State, line: string)
    requires st.openFence == "" && StartsSection(line)
    ensures Step(st, line) == Noting(st.sections, NewSection(HeadingOf(line).value.text))
  {
    HeadingIsNoFence(line);
    hide HeadingOf, FenceOf, Trim, BulletOf;
  }

  function NoteRead(section: Section, line: string): Section {
    if BulletOf(line).None? then section else ReadBullet(section, BulletOf(line).value)
  }

  lemma StepNote(sections: seq<Section>, current: Section, line: string)
    requires !EndsSection(line) && !IsTitle(line)
    ensures Step(Noting(sections, current), line) == Noting(sections, NoteRead(current, line))
  {
    if HeadingOf(line).Some? { HeadingIsNoFence(line); }
    LastSection(sections, current, NoteRead(current, line));
    hide HeadingOf, FenceOf, Trim, BulletOf, ReadBullet, Lower;
  }

  lemma StepTitle(sections: seq<Section>, current: Section, line: string)
    requires IsTitle(line)
    ensures Step(Noting(sections, current), line) == Awaiting(sections, current)
  {
    hide HeadingOf, FenceOf, Trim, BulletOf, ReadBullet, Lower;
  }

  lemma {:induction false} ScanBlanks(sections: seq<Section>, current: Section, blanks: seq<string>)
    requires AreBlank(blanks)
    ensures Scan(Awaiting(sections, current), blanks) == Awaiting(sections, current)
    decreases |blanks|
  {
    hide FenceOf, Trim, ReadLine;
    if blanks != [] { ScanBlanks(sections, current, blanks[1..]); }
  }

  lemma StepOpen(sections: seq<Section>, current: Section, line: string)
    requires FenceOf(line).Some? && FenceOf(line).value != "" && Trim(line) != ""
    ensures Step(Awaiting(sections, current), line) == Fencing(sections, current.(fenced := true), FenceOf(line).value)
  {
    LastSection(sections, current, current);
    hide FenceOf, Trim, ReadLine;
  }

  function Pushed(section: Section, lines: seq<string>): Section {
    section.(instructions := section.instructions + lines)
  }

  lemma StepInFence(sections: seq<Section>, current: Section, fence: string, line: string)
    requires fence != "" && !Closes(line, fence)
    ensures Step(Fencing(sections, current, fence), line) == Fencing(sections, Pushed(current, [line]), fence)
  {
    LastSection(sections, current, current);
    hide FenceOf, Trim, ReadLine, Closes;
  }

  lemma {:induction false} ScanInFence(sections: seq<Section>, current: Section, fence: string, lines: seq<string>)
    requires fence != "" && forall k :: 0 <= k < |lines| ==> !Closes(lines[k], fence)
    ensures Scan(Fencing(sections, current, fence), lines) == Fencing(sections, Pushed(current, lines), fence)
    decreases |lines|
  {
    hide Step, Closes, Fencing;
    if lines == [] {
      assert Pushed(current, []) == current;
    } else {
      StepInFence(sections, current, fence, lines[0]);
      ScanInFence(sections, Pushed(current, [lines[0]]), fence, lines[1..]);
      assert [lines[0]] + lines[1..] == lines;
      assert Pushed(Pushed(current, [lines[0]]), lines[1..]) == Pushed(current, lines);
    }
  }

  lemma StepClose(sections: seq<Section>, current: Section, fence: string, line: string)
    requires fence != "" && Closes(line, fence)
    ensures Step(Fencing(sections, current, fence), line) == Noting(sections, current)
  {
    hide FenceOf, Trim, ReadLine, Closes;
  }

  /** In a bare body every line is taken but a heading of level one or two. */
  lemma StepInBody(sections: seq<Section>, current: Section, line: string)
    requires !EndsSection(line)
    ensures Step(Reading(sections, current), line) == Reading(sections, Pushed(current, [line]))
  {
    LastSection(sections, current, Pushed(current, [line]));
    hide HeadingOf, FenceOf, Trim, BulletOf, ReadBullet, Lower;
  }

  lemma StepIntoBody(sections: seq<Section>, current: Section, line: string)
    requires !EndsSection(line) && Trim(line) != "" && FenceOf(line).None?
    ensures Step(Awaiting(sections, current), line) == Reading(sections, Pushed(current, [line]))
  {
    StepInBody(sections, current, line);
    hide HeadingOf, FenceOf, Trim, BulletOf, ReadBullet, Lower, ReadLine;
  }

  lemma {:induction false} ScanInBody(sections: seq<Section>, current: Section, lines: seq<string>)
    requires forall k :: 0 <= k < |lines| ==> !EndsSection(lines[k])
    ensures Scan(Reading(sections, current), lines) == Reading(sections, Pushed(current, lines))
    decreases |lines|
  {
    hide Step, EndsSection, Reading;
    if lines == [] {
      assert Pushed(current, []) == current;
    } else {
      StepInBody(sections, current, lines[0]);
      ScanInBody(sections, Pushed(current, [lines[0]]), lines[1..]);
      assert [lines[0]] + lines[1..] == lines;
      assert Pushed(Pushed(current, [lines[0]]), lines[1..]) == Pushed(current, lines);
    }
  }

  lemma StepOutside(st: State, line: string)
    requires st.openFence == "" && !st.hasCurrent && !st.inInstructions && !st.awaitingBody && !StartsSection(line)
    ensures Step(st, line) == st
  {
    hide HeadingOf, FenceOf, Trim, BulletOf, ReadBullet, Lower;
    if HeadingOf(line).Some? { assert HeadingOf(line).value.level >= 1 by { LevelIsPositive(line); } }
  }

  lemma LevelIsPositive(line: string)
    requires HeadingOf(line).Some?
    ensures HeadingOf(line).value.level >= 1
  {}

  lemma {:induction false} ScanOutside(st: State, lines: seq<string>)
    requires st.openFence == "" && !st.hasCurrent && !st.inInstructions && !st.awaitingBody && StartsNoSection(lines)
    ensures Scan(st, lines) == st
    decreases |lines|
  {
    hide Step, StartsSection;
    if lines != [] {
      StepOutside(st, lines[0]);
      ScanOutside(st, lines[1..]);
    }
  }

  // ---------------------------------------------------------------------------
  // Notes

  /** What some notes add to a section. */
  function Noted(section: Section, notes: seq<string>): Section {
    section.(cron := LastValue(notes, {"cron"}, section.cron),
             timeZone := LastValue(notes, {"time zone", "timezone"}, section.timeZone),
             ignoredKeys := section.ignoredKeys + UnknownKeys(notes))
  }

  lemma NotedNext(section: Section, notes: seq<string>, line: string)
    ensures Noted(section, notes + [line]) == NoteRead(Noted(section, notes), line)
  {
    hide BulletOf, StripInlineCode;
    assert (notes + [line])[..|notes|] == notes;
    assert "cron" != "time zone" && "cron" != "timezone" && "cron" != "schedule" && "time zone" != "schedule" && "timezone" != "schedule";
  }

  lemma {:induction false} ScanNotes(sections: seq<Section>, current: Section, notes: seq<string>)
    requires AreNotes(notes)
    ensures Scan(Noting(sections, current), notes) == Noting(sections, Noted(current, notes))
    decreases |notes|
  {
    hide Step, Noting, EndsSection, IsTitle, NoteRead;
    if notes == [] {
      assert Noted(current, []) == current;
    } else {
      var front, last := notes[..|notes| - 1], notes[|notes| - 1];
      assert notes == front + [last];
      ScanNotes(sections, current, front);
      ScanConcat(Noting(sections, current), front, [last]);
      ScanOne(Noting(sections, Noted(current, front)), last);
      StepNote(sections, Noted(current, front), last);
      NotedNext(current, front, last);
    }
  }

  lemma {:induction false} NotedTwice(section: Section, a: seq<string>, b: seq<string>)
    ensures Noted(Noted(section, a), b) == Noted(section, a + b)
    decreases |b|
  {
    hide NoteRead;
    if b == [] {
      assert a + b == a;
      assert Noted(Noted(section, a), []) == Noted(section, a);
    } else {
      var front, last := b[..|b| - 1], b[|b| - 1];
      assert b == front + [last] && a + b == (a + front) + [last];
      NotedTwice(section, a, front);
      NotedNext(section, a + front, last);
      NotedNext(Noted(section, a), front, last);
    }
  }

  // ---------------------------------------------------------------------------
  // Sections

  function AfterFenced(section: Section, b: Fenced): Section {
    Pushed(Noted(section, b.notes), b.lines).(fenced := true)
  }

  lemma ScanFenced(sections: seq<Section>, current: Section, b: Fenced)
    requires IsFenced(b)
    ensures Scan(Noting(sections, current), FencedLines(b)) == Noting(sections, AfterFenced(current, b))
  {
    hide Step, Scan, Noting, Awaiting, Fencing, FenceOf, Closes, Noted, Trim, IsTitle, AreNotes, AreBlank;
    var s1 := Noted(current, b.notes);
    var fence := FenceOf(b.open).value;
    FenceIsInk(b.open);
    ScanConcat(Noting(sections, current), b.notes, [b.title] + (b.blanks + ([b.open] + (b.lines + [b.close]))));
    ScanNotes(sections, current, b.notes);
    ScanConcat(Noting(sections, s1), [b.title], b.blanks + ([b.open] + (b.lines + [b.close])));
    ScanOne(Noting(sections, s1), b.title);
    StepTitle(sections, s1, b.title);
    ScanConcat(Awaiting(sections, s1), b.blanks, [b.open] + (b.lines + [b.close]));
    ScanBlanks(sections, s1, b.blanks);
    ScanConcat(Awaiting(sections, s1), [b.open], b.lines + [b.close]);
    ScanOne(Awaiting(sections, s1), b.open);
    StepOpen(sections, s1, b.open);
    var s2 := s1.(fenced := true);
    ScanConcat(Fencing(sections, s2, fence), b.lines, [b.close]);
    ScanInFence(sections, s2, fence, b.lines);
    ScanOne(Fencing(sections, Pushed(s2, b.lines), fence), b.close);
    StepClose(sections, Pushed(s2, b.lines), fence, b.close);
  }

  lemma FenceIsInk(line: string)
    requires FenceOf(line).Some?
    ensures Trim(line) != ""
  {
    if Trim(line) == "" {
      BlankTrimsAway(line);
    }
  }

  lemma BlankTrimsAway(line: string)
    requires Trim(line) == ""
    ensures TrimStart(line) == ""
  {
    TrimStartFacts(line);
    if TrimStart(line) != "" { TrimStartsWithInk(TrimStart(line)); TrimOfTrimStart(line); }
  }

  lemma TrimOfTrimStart(line: string)
    ensures TrimStart(TrimStart(line)) == TrimStart(line)
  {
    TrimStartFacts(line);
    if TrimStart(line) != "" { InkLine(TrimStart(line)); } 
  }

  function AfterBodies(section: Section, bodies: seq<Fenced>): Section {
    Pushed(Noted(section, NotesOf(bodies)), BodiesOf(bodies)).(fenced := section.fenced || bodies != [])
  }

  lemma {:induction false} ScanBodies(sections: seq<Section>, current: Section, bodies: seq<Fenced>)
    requires forall k :: 0 <= k < |bodies| ==> IsFenced(bodies[k])
    ensures Scan(Noting(sections, current), AllFencedLines(bodies)) == Noting(sections, AfterBodies(current, bodies))
  {
    hide Step, Scan, Noting, IsFenced, FencedLines, Noted;
    if bodies == [] {
      ScanNothing(Noting(sections, current));
      NothingNoted(current);
    } else {
      var front, last := bodies[..|bodies| - 1], bodies[|bodies| - 1];
      ScanBodies(sections, current, front);
      ScanConcat(Noting(sections, current), AllFencedLines(front), FencedLines(last));
      ScanFenced(sections, AfterBodies(current, front), last);
      OneBodyMore(current, bodies);
    }
  }

  lemma ScanNothing(st: State)
    ensures Scan(st, []) == st
  {}

  lemma NothingNoted(section: Section)
    ensures Noted(section, []) == section && Pushed(section, []) == section
  {}

  lemma OneBodyMore(section: Section, bodies: seq<Fenced>)
    requires bodies != []
    ensures AfterFenced(AfterBodies(section, bodies[..|bodies| - 1]), bodies[|bodies| - 1]) == AfterBodies(section, bodies)
  {
    var front, last := bodies[..|bodies| - 1], bodies[|bodies| - 1];
    NotedTwice(section, NotesOf(front), last.notes);
    hide LastValue, UnknownKeys;
    assert section.instructions + BodiesOf(front) + last.lines == section.instructions + (BodiesOf(front) + last.lines);
  }

  lemma ScanBare(sections: seq<Section>, current: Section, b: Bare)
    requires IsBare(b)
    ensures Scan(Noting(sections, current), BareLines(b)).openFence == ""
    ensures Scan(Noting(sections, current), BareLines(b)).sections
         == sections + [Pushed(current, if b.NoBare? then [] else b.lines)]
  {
    hide Step, Scan, FenceOf, Trim, IsTitle, AreBlank, EndsSection;
    if b.NoBare? {
      ScanNothing(Noting(sections, current));
      NothingNoted(current);
    } else {
      ScanConcat(Noting(sections, current), [b.title], b.blanks + b.lines);
      ScanOne(Noting(sections, current), b.title);
      StepTitle(sections, current, b.title);
      ScanConcat(Awaiting(sections, current), b.blanks, b.lines);
      ScanBlanks(sections, current, b.blanks);
      if b.lines == [] {
        ScanNothing(Awaiting(sections, current));
        NothingNoted(current);
      } else {
        var first, rest := b.lines[0], b.lines[1..];
        assert b.lines == [first] + rest;
        ScanConcat(Awaiting(sections, current), [first], rest);
        ScanOne(Awaiting(sections, current), first);
        StepIntoBody(sections, current, first);
        ScanInBody(sections, Pushed(current, [first]), rest);
        assert Pushed(Pushed(current, [first]), rest) == Pushed(current, b.lines);
      }
    }
  }

  // A heading of level one closes the section; nothing counts until the next section.
  lemma ScanAside(st: State, aside: seq<string>)
    requires st.openFence == "" && StartsNoSection(aside) && (aside != [] ==> EndsSection(aside[0]))
    ensures Scan(st, aside).openFence == "" && Scan(st, aside).sections == st.sections
  {
    if aside != [] {
      var first, rest := aside[0], aside[1..];
      HeadingIsNoFence(first);
      hide HeadingOf, FenceOf, Trim, BulletOf;
      assert Step(st, first) == State(st.sections, false, false, "", false);
      ScanOutside(Step(st, first), rest);
    }
  }

  /** Reading a section adds what it means, whatever came before. */
  lemma ScanWritten(st: State, w: Written)
    requires st.openFence == "" && IsWritten(w)
    ensures Scan(st, WrittenLines(w)).openFence == ""
    ensures Scan(st, WrittenLines(w)).sections == st.sections + [Meant(w)]
  {
    hide Step, Scan, Noting, IsFenced, IsBare, StartsSection, EndsSection, AreNotes, AllFencedLines, BareLines, Noted, AfterBodies, HeadingOf, StartsNoSection;
    SectionIsHeading(w.heading);
    var name := HeadingOf(w.heading).value.text;
    var sections, s0 := st.sections, NewSection(name);
    ScanConcat(st, [w.heading], AllFencedLines(w.fenced) + (w.notes + (BareLines(w.bare) + w.aside)));
    ScanOne(st, w.heading);
    StepHeading(st, w.heading);
    ScanConcat(Noting(sections, s0), AllFencedLines(w.fenced), w.notes + (BareLines(w.bare) + w.aside));
    ScanBodies(sections, s0, w.fenced);
    var s1 := AfterBodies(s0, w.fenced);
    ScanConcat(Noting(sections, s1), w.notes, BareLines(w.bare) + w.aside);
    ScanNotes(sections, s1, w.notes);
    var s2 := Noted(s1, w.notes);
    ScanConcat(Noting(sections, s2), BareLines(w.bare), w.aside);
    ScanBare(sections, s2, w.bare);
    ScanAside(Scan(Noting(sections, s2), BareLines(w.bare)), w.aside);
    MeantIs(w);
  }

  lemma SectionIsHeading(line: string)
    requires StartsSection(line)
    ensures HeadingOf(line).Some?
  {}

  lemma MeantIs(w: Written)
    requires HeadingOf(w.heading).Some?
    ensures var s2 := Noted(AfterBodies(NewSection(HeadingOf(w.heading).value.text), w.fenced), w.notes);
      Pushed(s2, if w.bare.NoBare? then [] else w.bare.lines) == Meant(w)
  {
    hide HeadingOf, LastValue, UnknownKeys;
    var s0 := NewSection(HeadingOf(w.heading).value.text);
    NotedTwice(s0, NotesOf(w.fenced), w.notes);
  }

  function FileLines(preamble: seq<string>, sections: seq<Written>): seq<string> {
    if sections == [] then preamble
    else FileLines(preamble, sections[..|sections| - 1]) + WrittenLines(sections[|sections| - 1])
  }

  function AllMeant(sections: seq<Written>): (meant: seq<Section>)
    requires forall i :: 0 <= i < |sections| ==> HeadingOf(sections[i].heading).Some?
    ensures |meant| == |sections|
  {
    seq(|sections|, i requires 0 <= i < |sections| => Meant(sections[i]))
  }

  ghost predicate AreWritten(sections: seq<Written>) {
    forall i :: 0 <= i < |sections| ==> IsWritten(sections[i]) && HeadingOf(sections[i].heading).Some?
  }

  /** The sections of a file, in order, after lines that start none. */
  lemma {:induction false} ScanFile(preamble: seq<string>, sections: seq<Written>)
    requires StartsNoSection(preamble) && AreWritten(sections)
    ensures Scan(Start(), FileLines(preamble, sections)).openFence == ""
    ensures Scan(Start(), FileLines(preamble, sections)).sections == AllMeant(sections)
  {
    hide Step, Scan, IsWritten, WrittenLines, Meant, HeadingOf, StartsNoSection;
    if sections == [] {
      ScanOutside(Start(), preamble);
    } else {
      var front, last := sections[..|sections| - 1], sections[|sections| - 1];
      ScanFile(preamble, front);
      ScanConcat(Start(), FileLines(preamble, front), WrittenLines(last));
      ScanWritten(Scan(Start(), FileLines(preamble, front)), last);
    }
  }

  // ---------------------------------------------------------------------------
  // From the text to the templates

  /** The lines of a file, each with a line feed or a carriage return and a line feed after it
      but the last. */
  function Ended(lines: seq<string>, returns': seq<bool>): (pieces: seq<string>)
    requires |returns'| == |lines|
    ensures |pieces| == |lines|
  {
    seq(|lines|, i requires 0 <= i < |lines| => if returns'[i] && i < |lines| - 1 then lines[i] + ['\r'] else lines[i])
  }

  ghost predicate AreLines(lines: seq<string>) {
    forall i :: 0 <= i < |lines| ==> '\n' !in lines[i] && (lines[i] != "" ==> lines[i][|lines[i]| - 1] != '\r')
  }

  lemma LinesOfEnded(lines: seq<string>, returns': seq<bool>)
    requires lines != [] && |returns'| == |lines| && AreLines(lines)
    ensures Lines(Join(Ended(lines, returns'), '\n')) == lines
  {
    hide Split, Join;
    var pieces := Ended(lines, returns');
    SplitOfJoin(pieces, '\n');
    forall i | 0 <= i < |lines|
      ensures Lines(Join(pieces, '\n'))[i] == lines[i]
    {
      assert (lines[i] + ['\r'])[..|lines[i]|] == lines[i];
    }
  }

  /** Control characters go; a body that was not fenced is trimmed. */
  function TemplateFor(section: Section): Template {
    var body := StripControl(Join(section.instructions, '\n'), true);
    Template(Trim(StripControl(section.name, false)), if section.fenced then body else Trim(body),
             Cron.Normalize(section.cron), Trim(section.timeZone))
  }

  function Title(section: Section): string {
    if Trim(section.name) != "" then Trim(section.name) else "Untitled workflow"
  }

  /** A template if nothing is wrong with it, and otherwise an error; a warning for keys that
      are not known. */
  function AcceptedOne(section: Section, zones: string -> bool): seq<Template> {
    if Problems(TemplateFor(section), zones) == [] then [TemplateFor(section)] else []
  }

  function RefusedOne(section: Section, zones: string -> bool): seq<ImportError> {
    if Problems(TemplateFor(section), zones) == [] then [] else [Rejected(Title(section), Problems(TemplateFor(section), zones))]
  }

  function WarnedOne(section: Section, zones: string -> bool): seq<Warning> {
    if Problems(TemplateFor(section), zones) == [] && section.ignoredKeys != [] then
      [Ignored(Title(section), set k | k in section.ignoredKeys)]
    else []
  }

  function Accepted(sections: seq<Section>, zones: string -> bool): seq<Template> {
    if sections == [] then [] else AcceptedOne(sections[0], zones) + Accepted(sections[1..], zones)
  }

  function Refused(sections: seq<Section>, zones: string -> bool): seq<ImportError> {
    if sections == [] then [] else RefusedOne(sections[0], zones) + Refused(sections[1..], zones)
  }

  function Warned(sections: seq<Section>, zones: string -> bool): seq<Warning> {
    if sections == [] then [] else WarnedOne(sections[0], zones) + Warned(sections[1..], zones)
  }

  lemma {:induction false} CollectConcat(a: seq<Section>, b: seq<Section>, zones: string -> bool)
    ensures var x, y := Collect(a, zones), Collect(b, zones);
      Collect(a + b, zones) == Import(x.templates + y.templates, x.errors + y.errors, x.warnings + y.warnings)
  {
    hide TemplateOf, Problems, Label;
    if b == [] {
      assert a + b == a;
    } else {
      assert (a + b)[..|a + b| - 1] == a + b[..|b| - 1];
      CollectConcat(a, b[..|b| - 1], zones);
    }
  }

  lemma {:induction false} CollectIs(sections: seq<Section>, zones: string -> bool)
    ensures Collect(sections, zones) == Import(Accepted(sections, zones), Refused(sections, zones), Warned(sections, zones))
    decreases |sections|
  {
    hide Collect, Accepted, Refused, Warned;
    if sections == [] {
      NothingCollected(zones);
    } else {
      var first, rest := sections[0], sections[1..];
      assert sections == [first] + rest;
      CollectConcat([first], rest, zones);
      CollectIs(rest, zones);
      CollectOne(first, zones);
      FirstAndRest(first, rest, zones);
    }
  }

  lemma NothingCollected(zones: string -> bool)
    ensures Collect([], zones) == Import([], [], []) && Accepted([], zones) == [] && Refused([], zones) == [] && Warned([], zones) == []
  {}

  lemma FirstAndRest(first: Section, rest: seq<Section>, zones: string -> bool)
    ensures Accepted([first] + rest, zones) == AcceptedOne(first, zones) + Accepted(rest, zones)
    ensures Refused([first] + rest, zones) == RefusedOne(first, zones) + Refused(rest, zones)
    ensures Warned([first] + rest, zones) == WarnedOne(first, zones) + Warned(rest, zones)
  {
    hide AcceptedOne, RefusedOne, WarnedOne;
    assert ([first] + rest)[1..] == rest;
  }

  lemma CollectOne(section: Section, zones: string -> bool)
    ensures Collect([section], zones) == Import(AcceptedOne(section, zones), RefusedOne(section, zones), WarnedOne(section, zones))
  {
    hide Problems, StripControl, Trim, Join, Cron.Normalize;
    assert [section][..0] == [];
    assert TemplateOf(section) == TemplateFor(section) && Label(section) == Title(section);
  }

  /** A file written by hand is imported as what its sections mean: the valid ones as
      templates, with a warning for keys the importer does not know, the others as errors,
      all in order. */
  lemma ImportByHand(preamble: seq<string>, sections: seq<Written>, returns': seq<bool>, zones: string -> bool)
    requires StartsNoSection(preamble) && AreWritten(sections)
    requires var lines := FileLines(preamble, sections); lines != [] && |returns'| == |lines| && AreLines(lines)
    ensures var meant := AllMeant(sections);
      ImportOf(Join(Ended(FileLines(preamble, sections), returns'), '\n'), zones)
      == Import(Accepted(meant, zones), Refused(meant, zones) + (if sections == [] then [NoWorkflows] else []), Warned(meant, zones))
  {
    hide Join, Scan, Lines, Collect, Accepted, Refused, Warned, FileLines, StartsNoSection, IsWritten, Ended, HeadingOf, Meant;
    var lines := FileLines(preamble, sections);
    LinesOfEnded(lines, returns');
    ScanFile(preamble, sections);
    CollectIs(AllMeant(sections), zones);
    var refused := Refused(AllMeant(sections), zones);
    assert refused + [] == refused;
  }

  /** A section with a heading, notes, a title, and a body outside any fence: the template has
      the body's lines, trimmed, whatever they are, unless a heading of level one or two is
      among them or the first is blank or a fence. */
  lemma BareBodyByHand(name: string, notes: seq<string>, lines: seq<string>, zones: string -> bool)
    requires name != "" && IsTrimmed(name) && !HasLineTerminator(name) && AreNotes(notes)
    requires AreLines(["## " + name] + notes + ["### Instructions"] + lines)
    requires (forall k :: 0 <= k < |lines| ==> !EndsSection(lines[k]))
    requires lines != [] ==> Trim(lines[0]) != "" && FenceOf(lines[0]).None?
    ensures var template := Template(Trim(StripControl(name, false)), Trim(StripControl(Join(lines, '\n'), true)),
                                     Cron.Normalize(LastValue(notes, {"cron"}, "")), Trim(LastValue(notes, {"time zone", "timezone"}, "")));
      var unknown := UnknownKeys(notes);
      ImportOf(Join(["## " + name] + notes + ["### Instructions"] + lines, '\n'), zones) ==
        if Problems(template, zones) != [] then Import([], [Rejected(name, Problems(template, zones))], [])
        else Import([template], [], if unknown == [] then [] else [Ignored(name, set k | k in unknown)])
  {
    hide HeadingOf, FenceOf, Trim, StripControl, Problems, HasLineTerminator, AreNotes, Cron.Normalize, LastValue, UnknownKeys, Join, EndsSection,
         IsWritten, WrittenLines, FileLines, Meant, Accepted, Refused, Warned, IsTrimmed, AreLines;
    var w := Written("## " + name, [], notes, Bare("### Instructions", [], lines), []);
    var all := ["## " + name] + notes + ["### Instructions"] + lines;
    OneWritten(w, name, notes, lines);
    var none := seq(|all|, _ => false);
    assert Ended(all, none) == all;
    ImportByHand([], [w], none, zones);
    assert AllMeant([w]) == [Meant(w)];
    BareMeaning(w, name, notes, lines);
    OneSection(Meant(w), zones);
    TrimOfName(name);
  }

  lemma OneWritten(w: Written, name: string, notes: seq<string>, lines: seq<string>)
    requires w == Written("## " + name, [], notes, Bare("### Instructions", [], lines), [])
    requires name != "" && IsTrimmed(name) && !HasLineTerminator(name) && AreNotes(notes)
    requires (forall k :: 0 <= k < |lines| ==> !EndsSection(lines[k]))
    requires lines != [] ==> Trim(lines[0]) != "" && FenceOf(lines[0]).None?
    ensures AreWritten([w]) && StartsNoSection([]) && HeadingOf(w.heading) == Some(Heading(2, name))
    ensures FileLines([], [w]) == ["## " + name] + notes + ["### Instructions"] + lines
  {
    hide HeadingOf, FenceOf, Trim, HasLineTerminator, AreNotes, IsTitle, IsTrimmed, EndsSection, WrittenLines, FileLines;
    SectionLine(name);
    TitleLine();
    assert IsWritten(w);
    OneFile(w);
    BareLinesOnly(w);
  }

  lemma SectionLine(name: string)
    requires name != "" && IsTrimmed(name) && !HasLineTerminator(name)
    ensures HeadingOf("## " + name) == Some(Heading(2, name))
  {
    hide HeadingOf, HasLineTerminator, IsTrimmed;
    HeadingLine(2, name);
    assert Signs(2) + " " + name == "## " + name;
  }

  lemma BareLinesOnly(w: Written)
    requires w.fenced == [] && w.aside == [] && w.bare.Bare? && w.bare.blanks == []
    ensures WrittenLines(w) == [w.heading] + w.notes + [w.bare.title] + w.bare.lines
  {}

  lemma OneFile(w: Written)
    ensures FileLines([], [w]) == WrittenLines(w)
  {
    hide WrittenLines;
    assert [w][..0] == [];
  }

  lemma TitleLine()
    ensures IsTitle("### Instructions") && !EndsSection("### Instructions")
  {
    KeysAreTrimmed();
    HeadingLine(3, "Instructions");
    assert Signs(3) + " " + "Instructions" == "### Instructions";
    LowerKeys();
  }

  lemma TrimOfName(name: string)
    requires name != "" && IsTrimmed(name)
    ensures Trim(name) == name
  {
    TrimOfTrimmed(name);
  }

  lemma BareMeaning(w: Written, name: string, notes: seq<string>, lines: seq<string>)
    requires HeadingOf(w.heading) == Some(Heading(2, name))
    requires w == Written(w.heading, [], notes, Bare("### Instructions", [], lines), [])
    ensures Meant(w) == Section(name, LastValue(notes, {"cron"}, ""), LastValue(notes, {"time zone", "timezone"}, ""), lines, false,
                                UnknownKeys(notes))
  {
    hide HeadingOf, LastValue, UnknownKeys;
    assert [] + notes == notes && [] + lines == lines;
  }

  lemma OneSection(section: Section, zones: string -> bool)
    ensures Accepted([section], zones) == AcceptedOne(section, zones)
    ensures Refused([section], zones) == RefusedOne(section, zones)
    ensures Warned([section], zones) == WarnedOne(section, zones)
  {
    hide AcceptedOne, RefusedOne, WarnedOne;
    FirstAndRest(section, [], zones);
    NothingCollected(zones);
    assert [section] + [] == [section];
  }
}
