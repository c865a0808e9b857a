/** Which lines the importer takes for headings, bullets and fences, and what the exporter and
    the check of a template say in the end. */
module WorkflowShapes {
  import opened Common
  import opened Text
  import opened WorkflowMarkdown
  import opened WorkflowLines
  import opened WorkflowScan
  import Cron
  import Utf8

  // ---------------------------------------------------------------------------
  // Headings

  /** A text that begins with ink or is empty. */
  predicate StartsInk(s: string) {
    s != "" ==> !IsSpace(s[0])
  }

  lemma HeadingReads(level: nat, gap: string, text: string)
    requires gap != "" && AllSpace(gap) && StartsInk(text)
    ensures HeadingOf(Signs(level) + gap + text)
         == if 1 <= level <= 6 && !HasLineTerminator(text) then Some(Heading(level, Trim(text))) else None
  {
    hide Trim, HasLineTerminator;
    var line := Signs(level) + gap + text;
    assert line == Signs(level) + (gap + text);
    InkIsNotSpace();
    assert (gap + text)[0] == gap[0];
    RunOfSigns(level, gap + text);
    assert line[level..] == gap + text && line[level] == gap[0];
    TrimStartDrops(gap, text);
  }

  /** A heading is one to six number signs, white space and a text on one line. */
  lemma HeadingShape(line: string) returns (gap: string, text: string)
    requires HeadingOf(line).Some?
    ensures gap != "" && AllSpace(gap) && StartsInk(text) && !HasLineTerminator(text)
    ensures var h := HeadingOf(line).value; 1 <= h.level <= 6 && line == Signs(h.level) + gap + text && h.text == Trim(text)
  {
    hide Trim, HasLineTerminator, TrimStart;
    var n := RunOf(line, '#');
    RunOfCount(line, '#');
    var rest := line[n..];
    TrimStartFacts(rest);
    text := TrimStart(rest);
    gap := rest[..|rest| - |text|];
    assert rest == gap + text;
    assert line[..n] == Signs(n);
    if gap == "" { InkAtStart(rest); }
  }

  lemma InkAtStart(rest: string)
    requires rest != "" && IsSpace(rest[0])
    ensures |TrimStart(rest)| < |rest|
  {
    TrimStartFacts(rest[1..]);
  }

  // ---------------------------------------------------------------------------
  // Bullets

  predicate IsMark(c: char) {
    c == '-' || c == '*'
  }

  lemma BulletReads(line: string, mark: char, key: string, value: string)
    requires Trim(line) == [mark] + key + ":" + value && IsMark(mark)
    requires |key| >= 2 && IsSpace(key[0]) && ':' !in key
    ensures BulletOf(line)
         == if HasLineTerminator(TrimStart(value)) then None else Some(Bullet(Lower(Trim(key)), Trim(TrimStart(value))))
  {
    hide Trim, TrimStart, HasLineTerminator, Lower;
    var t := Trim(line);
    assert t[1] == key[0];
    var s := t[1..];
    assert s == key + [':'] + value;
    IndexAfter(key, ':', value);
    assert s[..|key|] == key && s[|key| + 1..] == value;
  }

  /** A bullet is a dash or star, white space, a key up to the first colon, and a value on one
      line. */
  lemma BulletShape(line: string) returns (mark: char, key: string, value: string)
    requires BulletOf(line).Some?
    ensures Trim(line) == [mark] + key + ":" + value && IsMark(mark)
    ensures |key| >= 2 && IsSpace(key[0]) && ':' !in key && !HasLineTerminator(TrimStart(value))
    ensures BulletOf(line) == Some(Bullet(Lower(Trim(key)), Trim(TrimStart(value))))
  {
    hide Trim, TrimStart, HasLineTerminator, Lower;
    var t := Trim(line);
    var s := t[1..];
    var colon := IndexOf(s, ':');
    mark, key, value := t[0], s[..colon], s[colon + 1..];
    IndexIsFirst(s, ':');
    assert t == [mark] + s && s == key + [':'] + value;
  }

  lemma {:induction false} IndexIsFirst(s: string, c: char)
    ensures c !in s[..IndexOf(s, c)]
  {
    if s != "" && s[0] != c {
      IndexIsFirst(s[1..], c);
      assert s[..IndexOf(s, c)] == [s[0]] + s[1..][..IndexOf(s[1..], c)];
    }
  }

  // ---------------------------------------------------------------------------
  // Fences

  function Run(c: char, n: nat): (s: string)
    ensures |s| == n && forall i :: 0 <= i < n ==> s[i] == c
  {
    seq(n, _ => c)
  }

  lemma {:induction false} RunIs(c: char, n: nat, rest: string)
    requires rest != "" ==> rest[0] != c
    ensures RunOf(Run(c, n) + rest, c) == n
  {
    if n == 0 {
      assert Run(c, 0) + rest == rest;
    } else {
      assert (Run(c, n) + rest)[1..] == Run(c, n - 1) + rest;
      RunIs(c, n - 1, rest);
    }
  }

  lemma FenceReads(pad: string, c: char, n: nat, rest: string)
    requires AllSpace(pad) && (c == '`' || c == '~') && n > 0 && (rest != "" ==> rest[0] != c)
    ensures FenceOf(pad + (Run(c, n) + rest)) == if |pad| <= 3 && n >= 3 && !HasSpace(Trim(rest)) then Some(Run(c, n)) else None
  {
    hide Trim, HasSpace;
    var t := Run(c, n) + rest;
    InkIsNotSpace();
    assert t[0] == c;
    TrimStartDrops(pad, t);
    RunIs(c, n, rest);
    assert t[n..] == rest && t[..n] == Run(c, n);
  }

  /** A fence is up to three blanks, three or more backticks or tildes, and at most one word. */
  lemma FenceShape(line: string) returns (pad: string, c: char, n: nat, rest: string)
    requires FenceOf(line).Some?
    ensures line == pad + (Run(c, n) + rest) && AllSpace(pad) && |pad| <= 3 && n >= 3 && (c == '`' || c == '~')
    ensures (rest != "" ==> rest[0] != c) && !HasSpace(Trim(rest)) && FenceOf(line) == Some(Run(c, n))
  {
    hide Trim, HasSpace, TrimStart;
    TrimStartFacts(line);
    var t := TrimStart(line);
    pad, c := line[..|line| - |t|], t[0];
    n := RunOf(t, c);
    rest := t[n..];
    RunOfCount(t, c);
    RunStops(t, c);
    assert t[..n] == Run(c, n) && line == pad + t && t == Run(c, n) + rest;
  }

  lemma {:induction false} RunStops(s: string, c: char)
    ensures RunOf(s, c) < |s| ==> s[RunOf(s, c)] != c
  {
    if s != "" && s[0] == c { RunStops(s[1..], c); }
  }

  /** A line that starts with at most three blanks and a number sign. */
  ghost predicate LooksLikeHeading(line: string) {
    exists n :: 0 <= n <= 3 && n < |line| && AllSpace(line[..n]) && line[n] == '#'
  }

  lemma RiskyLine(line: string)
    ensures IsRisky(line) <==> LooksLikeHeading(line) || FenceOf(line).Some?
  {
    hide FenceOf;
    TrimStartFacts(line);
    InkIsNotSpace();
    var t := TrimStart(line);
    var k := |line| - |t|;
    if LooksLikeHeading(line) {
      var n :| 0 <= n <= 3 && n < |line| && AllSpace(line[..n]) && line[n] == '#';
      TrimStartDrops(line[..n], line[n..]);
      assert line[..n] + line[n..] == line;
    }
    if t != "" && k <= 3 && t[0] == '#' {
      assert line[k] == t[0];
    }
  }

  ghost predicate SomeLooksSpecial(lines: seq<string>) {
    exists k :: 0 <= k < |lines| && (LooksLikeHeading(lines[k]) || FenceOf(lines[k]).Some?)
  }

  /** A body is fenced exactly when it has white space at an end, or a line that would be read
      as a heading or a fence. */
  lemma FencedWhen(body: string)
    ensures NeedsFence(body) <==>
      !IsTrimmed(body) || SomeLooksSpecial(Split(body, '\n'))
  {
    TrimOfTrimmed(body);
    hide Trim, IsRisky, LooksLikeHeading, FenceOf, IsTrimmed, Split;
    var lines := Split(body, '\n');
    forall k | 0 <= k < |lines|
      ensures IsRisky(lines[k]) <==> LooksLikeHeading(lines[k]) || FenceOf(lines[k]).Some?
    {
      RiskyLine(lines[k]);
    }
  }

  lemma {:induction false} TicksAtEnd(s: string)
    ensures forall i :: |s| - TrailingTicks(s) <= i < |s| ==> s[i] == '`'
  {
    if s != "" && s[|s| - 1] == '`' { TicksAtEnd(s[..|s| - 1]); }
  }

  ghost predicate TicksAt(s: string, start: nat, n: nat) {
    start + n <= |s| && forall i :: start <= i < start + n ==> s[i] == '`'
  }

  lemma {:induction false} LongestIsARun(s: string) returns (start: nat)
    ensures TicksAt(s, start, LongestTicks(s))
  {
    start := 0;
    if s != "" {
      TicksAtEnd(s);
      if TrailingTicks(s) > LongestTicks(s[..|s| - 1]) {
        start := |s| - TrailingTicks(s);
      } else {
        start := LongestIsARun(s[..|s| - 1]);
      }
    }
  }

  /** The fence is three backticks, or one more than the longest run of them in the body. */
  lemma FenceIsShortest(body: string) returns (longest: nat)
    ensures |FenceFor(body)| == (if longest < 3 then 3 else longest + 1) && forall i :: 0 <= i < |FenceFor(body)| ==> FenceFor(body)[i] == '`'
    ensures exists start: nat :: TicksAt(body, start, longest)
    ensures forall start: nat, n: nat :: TicksAt(body, start, n) ==> n <= longest
  {
    longest := LongestTicks(body);
    var start := LongestIsARun(body);
    forall start: nat, n: nat | TicksAt(body, start, n)
      ensures n <= longest
    {
      RunWithinLongest(body, start, n);
    }
  }

  // ---------------------------------------------------------------------------
  // The check of a template

  /** What a template is refused for. */
  lemma ProblemsAre(t: Template, zones: string -> bool)
    ensures var p := Problems(t, zones); var name := Trim(t.name);
      && (NameRequired in p <==> name == "")
      && (NameTooLong in p <==> |name| > 160)
      && (InstructionsTooLong in p <==> Cron.Bytes(t.instructions) > 4096)
      && (CronInvalid in p <==> !Cron.IsValid(t.cron))
      && (ZoneUnknown in p <==> Trim(t.timeZone) == "" || !zones(Trim(t.timeZone)))
  {
    hide Trim, Cron.Bytes, Cron.IsValid;
    var name := if Trim(t.name) == "" then [NameRequired] else if |Trim(t.name)| > 160 then [NameTooLong] else [];
    var length := if Cron.Bytes(t.instructions) > 4096 then [InstructionsTooLong] else [];
    var cron := if Cron.IsValid(t.cron) then [] else [CronInvalid];
    var zone := if ValidZone(t.timeZone, zones) then [] else [ZoneUnknown];
    assert Problems(t, zones) == name + length + cron + zone;
  }

  function Code(c: char): nat {
    c as nat
  }

  function Codes(s: string): (codes: seq<nat>)
    ensures |codes| == |s|
  {
    seq(|s|, i requires 0 <= i < |s| => Code(s[i]))
  }

  lemma CharIsScalar(c: char)
    ensures Utf8.IsScalar(Code(c))
  {}

  lemma CodesAreScalar(s: string)
    ensures forall i :: 0 <= i < |Codes(s)| ==> Utf8.IsScalar(Codes(s)[i])
  {
    hide Code;
    forall i | 0 <= i < |s|
      ensures Utf8.IsScalar(Codes(s)[i])
    {
      CharIsScalar(s[i]);
    }
  }

  lemma {:induction false} EncodedConcat(a: seq<nat>, b: seq<nat>)
    requires forall i :: 0 <= i < |a| ==> Utf8.IsScalar(a[i])
    requires forall i :: 0 <= i < |b| ==> Utf8.IsScalar(b[i])
    ensures forall i :: 0 <= i < |a + b| ==> Utf8.IsScalar((a + b)[i])
    ensures Utf8.EncodeAll(a + b) == Utf8.EncodeAll(a) + Utf8.EncodeAll(b)
  {
    hide Utf8.EncodeRune, Utf8.IsScalar;
    if a == [] {
      assert a + b == b;
    } else {
      assert (a + b)[1..] == a[1..] + b;
      EncodedConcat(a[1..], b);
    }
  }

  lemma EncodedOne(code: nat)
    requires Utf8.IsScalar(code)
    ensures Utf8.EncodeAll([code]) == Utf8.EncodeRune(code)
    ensures |Utf8.EncodeRune(code)| == if code < 0x80 then 1 else if code < 0x800 then 2 else if code < 0x1_0000 then 3 else 4
  {
    assert [code][1..] == [];
    assert Utf8.EncodeRune(code) + [] == Utf8.EncodeRune(code);
  }

  /** The length that is limited is that of the text in UTF-8. */
  lemma {:induction false} BytesAreUtf8(s: string)
    ensures forall i :: 0 <= i < |Codes(s)| ==> Utf8.IsScalar(Codes(s)[i])
    ensures Cron.Bytes(s) == |Utf8.EncodeAll(Codes(s))|
  {
    hide Utf8.IsScalar, Utf8.EncodeAll, Utf8.EncodeRune;
    CodesAreScalar(s);
    if s == "" {
      NothingEncoded();
    } else {
      var front, last := s[..|s| - 1], s[|s| - 1];
      BytesAreUtf8(front);
      CharIsScalar(last);
      assert Codes(s) == Codes(front) + [Code(last)];
      EncodedConcat(Codes(front), [Code(last)]);
      EncodedOne(Code(last));
    }
  }

  lemma NothingEncoded()
    ensures Utf8.EncodeAll([]) == []
  {}

  // ---------------------------------------------------------------------------
  // What is printed

  function WeekdayNames(): (names: seq<string>)
    ensures |names| == 7
  {
    ["Sunday", "Monday", "Tuesday", "Wednesday", "Thursday", "Friday", "Saturday"]
  }

  lemma DayNameIs(weekday: int)
    requires 0 <= weekday <= 6
    ensures DayName(weekday) == WeekdayNames()[weekday]
  {}

  /** The description of a simple schedule. */
  lemma ScheduleIsDescribed(schedule: Cron.Schedule)
    requires Cron.ScheduleToCron(schedule).Some?
    ensures Cron.ParseClock(schedule.time).Some?
    ensures schedule.Weekly? ==> 0 <= schedule.weekday <= 6
    ensures var time := Cron.FormatClock(Cron.ParseClock(schedule.time).value);
      DescribeSchedule(Cron.ScheduleToCron(schedule).value) ==
        match schedule
        case Daily(_) => "Every day at " + time
        case Weekdays(_) => "Every weekday at " + time
        case Weekly(_, weekday) => "Every " + WeekdayNames()[weekday] + " at " + time
  {
    hide Cron.CronToSchedule, DayName, WeekdayNames, Cron.FormatClock, Cron.ParseClock, Decimal;
    Cron.ScheduleRoundTrip(schedule);
    if schedule.Weekly? { DayNameIs(schedule.weekday); }
  }

  lemma HeaderIs(t: Template)
    ensures var cron, zone := Cron.Normalize(t.cron), Trim(t.timeZone);
      Join(HeaderPieces(t), '\n')
      == "## " + Trim(t.name) + "\n" + "\n"
         + "- Schedule: " + DescribeSchedule(cron) + "\n"
         + "- Cron: `" + cron + "`\n"
         + "- Time zone: " + zone + "\n" + "\n"
         + "### Instructions\n"
  {
    hide Trim, DescribeSchedule, Cron.Normalize, Join;
    var cron := Cron.Normalize(t.cron);
    JoinOfEight("## " + Trim(t.name), "", "- Schedule: " + DescribeSchedule(cron), "- Cron: `" + cron + "`",
                "- Time zone: " + Trim(t.timeZone), "", "### Instructions", "");
  }

  /** A section is its header and its body, between two fences when it needs them. */
  lemma SectionIs(t: Template)
    ensures var fence := FenceFor(t.instructions);
      SectionText(t) == Join(HeaderPieces(t), '\n') + "\n"
                        + (if NeedsFence(t.instructions) then fence + "\n" + t.instructions + "\n" + fence else Trim(t.instructions))
  {
    hide Trim, HeaderPieces, NeedsFence, FenceFor;
    HeaderIsLong(t);
    JoinConcat(HeaderPieces(t), BodyPieces(t.instructions), '\n');
    if NeedsFence(t.instructions) { JoinOfThree(FenceFor(t.instructions), t.instructions, FenceFor(t.instructions)); }
  }

  lemma HeaderIsLong(t: Template)
    ensures HeaderPieces(t) != []
  {
    hide Trim, DescribeSchedule, Cron.Normalize;
  }

  lemma JoinOfThree(a: string, b: string, c: string)
    ensures Join([a, b, c], '\n') == a + "\n" + b + "\n" + c
  {
    assert [a, b, c][1..] == [b, c] && [b, c][1..] == [c];
    assert Join([c], '\n') == c;
    assert Join([b, c], '\n') == b + ['\n'] + c;
  }

  lemma JoinOfEight(a: string, b: string, c: string, d: string, e: string, f: string, g: string, h: string)
    ensures Join([a, b, c, d, e, f, g, h], '\n') == a + "\n" + b + "\n" + c + "\n" + d + "\n" + e + "\n" + f + "\n" + g + "\n" + h
  {
    JoinOfFour(e, f, g, h);
    JoinOfFour(a, b, c, d);
    JoinConcat([a, b, c, d], [e, f, g, h], '\n');
    assert [a, b, c, d] + [e, f, g, h] == [a, b, c, d, e, f, g, h];
  }

  lemma JoinOfFour(a: string, b: string, c: string, d: string)
    ensures Join([a, b, c, d], '\n') == a + "\n" + b + "\n" + c + "\n" + d
  {
    assert [a, b, c, d][1..] == [b, c, d] && [b, c, d][1..] == [c, d] && [c, d][1..] == [d];
    assert Join([d], '\n') == d;
    assert Join([c, d], '\n') == c + ['\n'] + d;
    assert Join([b, c, d], '\n') == b + ['\n'] + (c + ['\n'] + d);
  }
}
