/** Workflow templates as Markdown: the exporter, and the importer's line-driven state
    machine. Time-zone validity is the caller's predicate. */
module WorkflowMarkdown {
  import opened Common
  import opened Text
  import Cron

  datatype Template = Template(name: string, instructions: string, cron: string, timeZone: string)

  // ---------------------------------------------------------------------------
  // Validation

  datatype Problem = NameRequired | NameTooLong | InstructionsTooLong | CronInvalid | ZoneUnknown

  const NAME_MAX := 160
  const INSTRUCTIONS_MAX_BYTES := 4096

  predicate ValidZone(zone: string, zones: string -> bool) {
    Trim(zone) != "" && zones(Trim(zone))
  }

  function Problems(t: Template, zones: string -> bool): seq<Problem> {
    (if Trim(t.name) == "" then [NameRequired] else if |Trim(t.name)| > NAME_MAX then [NameTooLong] else [])
    + (if Cron.Bytes(t.instructions) > INSTRUCTIONS_MAX_BYTES then [InstructionsTooLong] else [])
    + (if !Cron.IsValid(t.cron) then [CronInvalid] else [])
    + (if !ValidZone(t.timeZone, zones) then [ZoneUnknown] else [])
  }

  /** The text without control characters, or with only line breaks and tabs of them. */
  function StripControl(s: string, keepWhitespace: bool): string {
    if s == "" then ""
    else
      var c := s[|s| - 1];
      StripControl(s[..|s| - 1], keepWhitespace)
      + (if !IsControl(c) || (keepWhitespace && (c == '\n' || c == '\t')) then [c] else "")
  }

  method StripControlCharacters(value: string, keepWhitespace: bool) returns (cleaned: string)
    ensures cleaned == StripControl(value, keepWhitespace)
  {
    cleaned := "";
    for i := 0 to |value|
      invariant cleaned == StripControl(value[..i], keepWhitespace)
    {
      assert value[..i + 1][..i] == value[..i];
      var c := value[i];
      if !IsControl(c) {
        cleaned := cleaned + [c];
        continue;
      }
      if keepWhitespace && (c == '\n' || c == '\t') {
        cleaned := cleaned + [c];
      }
    }
    assert value[..|value|] == value;
  }

  // ---------------------------------------------------------------------------
  // Line shapes

  function RunOf(s: string, c: char): (n: nat)
    ensures n <= |s|
  {
    if s == "" || s[0] != c then 0 else 1 + RunOf(s[1..], c)
  }

  predicate HasSpace(s: string) {
    exists i :: 0 <= i < |s| && IsSpace(s[i])
  }

  predicate HasLineTerminator(s: string) {
    exists i :: 0 <= i < |s| && IsLineTerminator(s[i])
  }

  /** A fence line: up to three blanks, three or more backticks or tildes, and at most
      one word. The result is the run itself. */
  function FenceOf(line: string): Option<string> {
    var t := TrimStart(line);
    if |line| - |t| > 3 || t == "" || (t[0] != '`' && t[0] != '~') then None
    else
      var n := RunOf(t, t[0]);
      if n < 3 || HasSpace(Trim(t[n..])) then None else Some(t[..n])
  }

  predicate Closes(line: string, openFence: string)
    requires openFence != ""
  {
    var f := FenceOf(line);
    f.Some? && f.value != "" && f.value[0] == openFence[0] && |f.value| >= |openFence|
  }

  datatype Heading = Heading(level: nat, text: string)

  /** One to six number signs, white space and the rest of the line. */
  function HeadingOf(line: string): Option<Heading> {
    var n := RunOf(line, '#');
    if !(1 <= n <= 6) || n == |line| || !IsSpace(line[n]) then None
    else
      var rest := TrimStart(line[n..]);
      if HasLineTerminator(rest) then None else Some(Heading(n, Trim(rest)))
  }

  function IndexOf(s: string, c: char): (i: nat)
    ensures i <= |s| && (i < |s| ==> s[i] == c)
  {
    if s == "" then 0 else if s[0] == c then 0 else 1 + IndexOf(s[1..], c)
  }

  function Lower(s: string): (t: string)
    ensures |t| == |s|
  {
    seq(|s|, i requires 0 <= i < |s| => if 'A' <= s[i] <= 'Z' then s[i] - 'A' + 'a' else s[i])
  }

  datatype Bullet = Bullet(key: string, value: string)

  /** A dash or star, white space, a key, a colon and a value. */
  function BulletOf(line: string): Option<Bullet> {
    var t := Trim(line);
    if |t| < 2 || (t[0] != '-' && t[0] != '*') || !IsSpace(t[1]) then None
    else
      var s := t[1..];
      var colon := IndexOf(s, ':');
      if colon == |s| || colon < 2 then None
      else
        var rest := TrimStart(s[colon + 1..]);
        if HasLineTerminator(rest) then None else Some(Bullet(Lower(Trim(s[..colon])), Trim(rest)))
  }

  predicate IsInlineCode(t: string) {
    |t| >= 2 && t[0] == '`' && t[|t| - 1] == '`' && !HasLineTerminator(t[1..|t| - 1])
  }

  function StripInlineCode(value: string): string {
    var t := Trim(value);
    if IsInlineCode(t) then Trim(t[1..|t| - 1]) else t
  }

  // ---------------------------------------------------------------------------
  // The importer

  datatype Section = Section(name: string, cron: string, timeZone: string,
                             instructions: seq<string>, fenced: bool, ignoredKeys: seq<string>)

  /** The flags of the importer; the current section, if there is one, is the last. */
  datatype State = State(sections: seq<Section>, hasCurrent: bool, inInstructions: bool,
                         openFence: string, awaitingBody: bool)

  function Start(): State {
    State([], false, false, "", false)
  }

  function Current(st: State): Section
    requires st.sections != []
  {
    st.sections[|st.sections| - 1]
  }

  function WithCurrent(st: State, section: Section): State
    requires st.sections != []
  {
    st.(sections := st.sections[..|st.sections| - 1] + [section])
  }

  function PushLine(st: State, line: string): State {
    if st.hasCurrent && st.sections != [] then
      WithCurrent(st, Current(st).(instructions := Current(st).instructions + [line]))
    else st
  }

  /** One line of the file. */
  function Step(st: State, line: string): State {
    if st.openFence != "" then
      if Closes(line, st.openFence) then st.(openFence := "", inInstructions := false) else PushLine(st, line)
    else if st.awaitingBody && Trim(line) == "" then st
    else if st.awaitingBody && FenceOf(line).Some? then
      var inFence := st.(awaitingBody := false, openFence := FenceOf(line).value);
      if st.hasCurrent && st.sections != [] then WithCurrent(inFence, Current(st).(fenced := true)) else inFence
    else ReadLine(st.(awaitingBody := false), line)
  }

  /** A line outside any fence. */
  function ReadLine(st: State, line: string): State {
    var heading := HeadingOf(line);
    if heading.Some? then
      if heading.value.level <= 2 then
        State(if heading.value.level == 2 then st.sections + [Section(heading.value.text, "", "", [], false, [])] else st.sections,
              heading.value.level == 2, false, st.openFence, false)
      else if Lower(heading.value.text) == "instructions" && !st.inInstructions then
        st.(inInstructions := st.hasCurrent, awaitingBody := st.hasCurrent)
      else if st.inInstructions then PushLine(st, line)
      else st
    else if !st.hasCurrent || st.sections == [] then st
    else if !st.inInstructions then
      var bullet := BulletOf(line);
      if bullet.None? then st else WithCurrent(st, ReadBullet(Current(st), bullet.value))
    else PushLine(st, line)
  }

  function ReadBullet(section: Section, bullet: Bullet): Section {
    if bullet.key == "cron" then section.(cron := StripInlineCode(bullet.value))
    else if bullet.key == "time zone" || bullet.key == "timezone" then section.(timeZone := StripInlineCode(bullet.value))
    else if bullet.key != "schedule" then section.(ignoredKeys := section.ignoredKeys + [bullet.key])
    else section
  }

  function Scan(st: State, lines: seq<string>): State
    decreases |lines|
  {
    if lines == [] then st else Scan(Step(st, lines[0]), lines[1..])
  }

  /** The lines of a file: breaks are a line feed with an optional carriage return
      before it. */
  function Lines(text: string): (lines: seq<string>)
    ensures |lines| >= 1
  {
    var pieces := Split(text, '\n');
    seq(|pieces|, i requires 0 <= i < |pieces| =>
      if i < |pieces| - 1 && pieces[i] != "" && pieces[i][|pieces[i]| - 1] == '\r' then pieces[i][..|pieces[i]| - 1]
      else pieces[i])
  }

  datatype ImportError = NoWorkflows | Rejected(title: string, problems: seq<Problem>)
  datatype Warning = Ignored(title: string, keys: set<string>)
  datatype Import = Import(templates: seq<Template>, errors: seq<ImportError>, warnings: seq<Warning>)

  function Label(section: Section): string {
    if Trim(section.name) == "" then "Untitled workflow" else Trim(section.name)
  }

  /** The template a section describes. */
  function TemplateOf(section: Section): Template {
    var body := StripControl(Join(section.instructions, '\n'), true);
    Template(Trim(StripControl(section.name, false)),
             if section.fenced then body else Trim(body),
             Cron.Normalize(section.cron),
             Trim(section.timeZone))
  }

  function Collect(sections: seq<Section>, zones: string -> bool): Import {
    if sections == [] then Import([], [], [])
    else
      var section := sections[|sections| - 1];
      var before := Collect(sections[..|sections| - 1], zones);
      var template := TemplateOf(section);
      var problems := Problems(template, zones);
      if problems != [] then before.(errors := before.errors + [Rejected(Label(section), problems)])
      else
        Import(before.templates + [template], before.errors,
               if section.ignoredKeys == [] then before.warnings
               else before.warnings + [Ignored(Label(section), set k | k in section.ignoredKeys)])
  }

  function ImportOf(text: string, zones: string -> bool): Import {
    var sections := Scan(Start(), Lines(text)).sections;
    var result := Collect(sections, zones);
    if sections == [] then result.(errors := result.errors + [NoWorkflows]) else result
  }

  /** The importer's two loops. */
  method ImportWorkflowMarkdown(markdown: string, zones: string -> bool) returns (result: Import)
    ensures result == ImportOf(markdown, zones)
  {
    hide FenceOf, HeadingOf, BulletOf, StripInlineCode, Trim, TemplateOf, Problems, Lines;
    var lines := Lines(markdown);
    var st := Start();
    for i := 0 to |lines|
      invariant Scan(Start(), lines) == Scan(st, lines[i..])
    {
      var line := lines[i];
      st := Step(st, line);
      assert lines[i..][0] == line && lines[i..][1..] == lines[i + 1..];
    }
    var sections := st.sections;
    var templates, errors, warnings := [], [], [];
    for i := 0 to |sections|
      invariant Import(templates, errors, warnings) == Collect(sections[..i], zones)
    {
      assert sections[..i + 1][..i] == sections[..i];
      var section := sections[i];
      var template := TemplateOf(section);
      var problems := Problems(template, zones);
      if problems != [] {
        errors := errors + [Rejected(Label(section), problems)];
        continue;
      }
      if section.ignoredKeys != [] {
        warnings := warnings + [Ignored(Label(section), set k | k in section.ignoredKeys)];
      }
      templates := templates + [template];
    }
    assert sections[..|sections|] == sections;
    if sections == [] {
      errors := errors + [NoWorkflows];
    }
    result := Import(templates, errors, warnings);
  }

  // ---------------------------------------------------------------------------
  // The exporter

  const HEADING := "# OpenAgentFleet workflows"
  // Written in pieces: the verifier does not look into a literal this long.
  const PREAMBLE_FIRST := "Each workflow below describes " + "what to run and when. Importing " + "one creates a"
  const PREAMBLE_SECOND := "disabled routine: you choose " + "which agent owns it and turn " + "it on yourself."

  /** A line that would be read as a heading or a fence. */
  predicate IsRisky(line: string) {
    var t := TrimStart(line);
    (|line| - |t| <= 3 && t != "" && t[0] == '#') || FenceOf(line).Some?
  }

  /** The number of backticks at the end. */
  function TrailingTicks(s: string): (n: nat)
    ensures n <= |s|
  {
    if s == "" || s[|s| - 1] != '`' then 0 else TrailingTicks(s[..|s| - 1]) + 1
  }

  function LongestTicks(s: string): nat {
    if s == "" then 0
    else
      var earlier := LongestTicks(s[..|s| - 1]);
      if TrailingTicks(s) > earlier then TrailingTicks(s) else earlier
  }

  predicate NeedsFence(body: string) {
    body != Trim(body) || exists k :: 0 <= k < |Split(body, '\n')| && IsRisky(Split(body, '\n')[k])
  }

  function Ticks(n: nat): (s: string)
    ensures |s| == n && forall i :: 0 <= i < n ==> s[i] == '`'
  {
    seq(n, _ => '`')
  }

  /** The fence of a body that needs one: longer than any run of backticks in it. */
  function FenceFor(body: string): string {
    var longest := LongestTicks(body);
    Ticks(if longest + 1 < 3 then 3 else longest + 1)
  }

  function DayName(weekday: int): string {
    if weekday == 0 then "Sunday" else if weekday == 1 then "Monday" else if weekday == 2 then "Tuesday"
    else if weekday == 3 then "Wednesday" else if weekday == 4 then "Thursday" else if weekday == 5 then "Friday"
    else "Saturday"
  }

  function DescribeSchedule(cron: string): string {
    var schedule := Cron.CronToSchedule(cron);
    if schedule.None? then
      if Cron.IsValid(cron) then "Custom schedule (" + Cron.Normalize(cron) + ")" else "Not a valid schedule"
    else
      match schedule.value
      case Daily(time) => "Every day at " + time
      case Weekdays(time) => "Every weekday at " + time
      case Weekly(time, weekday) => "Every " + DayName(weekday) + " at " + time
  }

  function BodyPieces(instructions: string): (pieces: seq<string>)
    ensures pieces != []
  {
    if NeedsFence(instructions) then [FenceFor(instructions), instructions, FenceFor(instructions)]
    else [Trim(instructions)]
  }

  function HeaderPieces(t: Template): seq<string> {
    var cron := Cron.Normalize(t.cron);
    ["## " + Trim(t.name),
     "",
     "- Schedule: " + DescribeSchedule(cron),
     "- Cron: `" + cron + "`",
     "- Time zone: " + Trim(t.timeZone),
     "",
     "### Instructions",
     ""]
  }

  function SectionText(t: Template): string {
    Join(HeaderPieces(t) + BodyPieces(t.instructions), '\n')
  }

  function SectionTexts(templates: seq<Template>): (texts: seq<string>)
    ensures |texts| == |templates|
  {
    seq(|templates|, i requires 0 <= i < |templates| => SectionText(templates[i]))
  }

  function Preamble(): seq<string> {
    [HEADING, "", PREAMBLE_FIRST + "\n" + PREAMBLE_SECOND, ""]
  }

  function Export(templates: seq<Template>): string {
    TrimEnd(Join(Preamble() + SectionTexts(templates), '\n')) + "\n"
  }
}
