/** Cron expressions: which are valid, when they fire, and the simple schedules of the
    picker. */
module Cron {
  import opened Common
  import opened Text

  // ---------------------------------------------------------------------------
  // Numbers and fields

  /** An optional sign and digits. */
  function ParseNumber(value: string): Option<int> {
    if value == "" then None
    else
      var signed := value[0] == '+' || value[0] == '-';
      var digits := if signed then value[1..] else value;
      if digits == "" || !AllDigits(digits) then None
      else
        var magnitude: int := DecimalValue(digits);
        Some(if value[0] == '-' then -magnitude else magnitude)
  }

  /** One item of a comma-separated field. */
  predicate ValidItem(item: string, minimum: int, maximum: int) {
    if item == "" then false
    else if '/' in item then
      var parts := Split(item, '/');
      if |parts| != 2 || parts[0] == "" then false
      else
        var step := ParseNumber(parts[1]);
        if step.None? || step.value < 1 || step.value > maximum - minimum + 1 then false
        else ValidBase(parts[0], minimum, maximum)
    else ValidBase(item, minimum, maximum)
  }

  predicate ValidBase(base: string, minimum: int, maximum: int) {
    if base == "*" then true
    else if '-' in base then
      var bounds := Split(base, '-');
      |bounds| == 2
      && var start, end := ParseNumber(bounds[0]), ParseNumber(bounds[1]);
      start.Some? && end.Some? && minimum <= start.value <= end.value <= maximum
    else
      var number := ParseNumber(base);
      number.Some? && minimum <= number.value <= maximum
  }

  predicate ValidField(field: string, minimum: int, maximum: int) {
    forall k :: 0 <= k < |Split(field, ',')| ==> ValidItem(Split(field, ',')[k], minimum, maximum)
  }

  method ValidCronField(field: string, minimum: int, maximum: int) returns (valid: bool)
    ensures valid == ValidField(field, minimum, maximum)
  {
    var items := Split(field, ',');
    for k := 0 to |items|
      invariant forall i :: 0 <= i < k ==> ValidItem(items[i], minimum, maximum)
    {
      var item := items[k];
      if item == "" { return false; }
      var base := item;
      if '/' in item {
        var parts := Split(item, '/');
        if |parts| != 2 || parts[0] == "" { return false; }
        var step := ParseNumber(parts[1]);
        if step.None? || step.value < 1 || step.value > maximum - minimum + 1 { return false; }
        base := parts[0];
      }
      if base == "*" { continue; }
      if '-' in base {
        var bounds := Split(base, '-');
        if |bounds| != 2 { return false; }
        var start, end := ParseNumber(bounds[0]), ParseNumber(bounds[1]);
        if start.None? || end.None? { return false; }
        if start.value < minimum || end.value > maximum || start.value > end.value { return false; }
        continue;
      }
      var number := ParseNumber(base);
      if number.None? || number.value < minimum || number.value > maximum { return false; }
    }
    return true;
  }

  /** The length of a string in UTF-8. */
  function Bytes(s: string): nat {
    if s == "" then 0
    else
      var code := s[|s| - 1] as int;
      Bytes(s[..|s| - 1]) + (if code < 0x80 then 1 else if code < 0x800 then 2 else if code < 0x10000 then 3 else 4)
  }

  lemma {:induction false} BytesAtMost(s: string)
    ensures Bytes(s) <= 4 * |s|
  {
    if s != "" { BytesAtMost(s[..|s| - 1]); }
  }

  const CRON_MAX_BYTES := 256

  function Normalize(value: string): string {
    Join(Words(value), ' ')
  }

  predicate ValidFields(fields: seq<string>)
    requires |fields| == 5
  {
    && ValidField(fields[0], 0, 59)
    && ValidField(fields[1], 0, 23)
    && ValidField(fields[2], 1, 31)
    && ValidField(fields[3], 1, 12)
    && ValidField(fields[4], 0, 7)
  }

  predicate IsValid(value: string) {
    var normalized := Normalize(value);
    && normalized != ""
    && Bytes(normalized) <= CRON_MAX_BYTES
    && var fields := Split(normalized, ' ');
    |fields| == 5 && ValidFields(fields)
  }

  // Splitting the normal form at blanks gives back the words.
  lemma SplitNormalized(value: string)
    requires Words(value) != []
    ensures Split(Normalize(value), ' ') == Words(value)
    ensures Words(Normalize(value)) == Words(value)
  {
    WordsAreWords(value);
    forall k | 0 <= k < |Words(value)|
      ensures ' ' !in Words(value)[k]
    {
      assert IsWord(Words(value)[k]);
    }
    SplitOfJoin(Words(value), ' ');
    WordsOfJoin(Words(value));
  }

  lemma ValidWords(value: string)
    requires IsValid(value)
    ensures |Words(value)| == 5 && ValidFields(Words(value)) && Split(Normalize(value), ' ') == Words(value)
  {
    hide ValidFields;
    SplitNormalized(value);
  }

  /** Normalizing twice changes nothing and does not affect validity. */
  lemma NormalizeTwice(value: string)
    ensures Normalize(Normalize(value)) == Normalize(value)
    ensures IsValid(Normalize(value)) == IsValid(value)
  {
    if Words(value) != [] { SplitNormalized(value); }
  }

  // ---------------------------------------------------------------------------
  // When an expression fires

  /** A minute of the calendar; weekday 0 is Sunday. */
  datatype Moment = Moment(minute: int, hour: int, day: int, month: int, weekday: int)

  ghost predicate IsMoment(t: Moment) {
    0 <= t.minute <= 59 && 0 <= t.hour <= 23 && 1 <= t.day <= 31 && 1 <= t.month <= 12 && 0 <= t.weekday <= 6
  }

  datatype Match = Malformed | Misses | Hits

  /** One list item of the scheduler's matching. */
  function MatchItem(item: string, value: int, minimum: int, maximum: int): Match {
    if item == "" then Malformed
    else if '/' in item then
      var parts := Split(item, '/');
      if |parts| != 2 then Malformed
      else
        var step := ParseNumber(parts[1]);
        if step.None? || step.value < 1 then Malformed else MatchBase(parts[0], step.value, value, minimum, maximum)
    else MatchBase(item, 1, value, minimum, maximum)
  }

  function MatchBase(base: string, step: int, value: int, minimum: int, maximum: int): Match
    requires step >= 1
  {
    if base == "*" then MatchRange(minimum, maximum, step, value)
    else if '-' in base then
      var bounds := Split(base, '-');
      if |bounds| != 2 then Malformed
      else
        var start, end := ParseNumber(bounds[0]), ParseNumber(bounds[1]);
        if start.None? || end.None? then Malformed else MatchRange(start.value, end.value, step, value)
    else
      var number := ParseNumber(base);
      if number.None? then Malformed else MatchRange(number.value, number.value, step, value)
  }

  function MatchRange(start: int, end: int, step: int, value: int): Match
    requires step >= 1
  {
    if value < start || value > end then Misses else if (value - start) % step == 0 then Hits else Misses
  }

  predicate MatchItems(items: seq<string>, value: int, minimum: int, maximum: int) {
    if items == [] then false
    else
      match MatchItem(items[0], value, minimum, maximum)
      case Malformed => false
      case Hits => true
      case Misses => MatchItems(items[1..], value, minimum, maximum)
  }

  predicate FieldMatches(field: string, value: int, minimum: int, maximum: int) {
    MatchItems(Split(field, ','), value, minimum, maximum)
  }

  predicate WeekdayMatches(field: string, weekday: int) {
    FieldMatches(field, weekday, 0, 7) || (weekday == 0 && FieldMatches(field, 7, 0, 7))
  }

  /** The scheduler's rule: with both day fields restricted, either may match. */
  predicate Fires(expression: string, t: Moment) {
    var fields := Words(expression);
    && |fields| == 5
    && FieldMatches(fields[0], t.minute, 0, 59)
    && FieldMatches(fields[1], t.hour, 0, 23)
    && FieldMatches(fields[3], t.month, 1, 12)
    && var byDay, byWeekday := FieldMatches(fields[2], t.day, 1, 31), WeekdayMatches(fields[4], t.weekday);
    if fields[2] != "*" && fields[4] != "*" then byDay || byWeekday else byDay && byWeekday
  }

  lemma FieldWithoutComma(field: string, value: int, minimum: int, maximum: int)
    requires ',' !in field
    ensures Split(field, ',') == [field]
    ensures FieldMatches(field, value, minimum, maximum) <==> MatchItem(field, value, minimum, maximum) == Hits
    ensures ValidField(field, minimum, maximum) <==> ValidItem(field, minimum, maximum)
  {
    hide MatchItem, ValidItem;
    SplitPieces(field, ',');
    assert [field][1..] == [];
    assert !MatchItems([field][1..], value, minimum, maximum);
  }

  /** A valid field that reads as a number fires at that number only. */
  lemma NumberField(field: string, minimum: int, maximum: int)
    requires ValidField(field, minimum, maximum) && ParseNumber(field).Some?
    ensures minimum <= ParseNumber(field).value <= maximum
    ensures forall value :: FieldMatches(field, value, minimum, maximum) <==> value == ParseNumber(field).value
  {
    NoSeparators(field);
    FieldWithoutComma(field, 0, minimum, maximum);
    if field[0] == '-' { MinusIsNoRange(field, minimum, maximum); }
    forall value
      ensures FieldMatches(field, value, minimum, maximum) <==> value == ParseNumber(field).value
    {
      FieldWithoutComma(field, value, minimum, maximum);
    }
  }

  // A minus sign reads as a dash with nothing in front of it.
  lemma MinusIsNoRange(field: string, minimum: int, maximum: int)
    requires field != "" && field[0] == '-'
    ensures !ValidBase(field, minimum, maximum)
  {
    assert field == "" + ['-'] + field[1..];
    SplitConcat("", '-', field[1..]);
    assert Split(field, '-')[0] == "";
  }

  lemma NoSeparators(field: string)
    requires ParseNumber(field).Some?
    ensures ',' !in field && '/' !in field && field != "*"
    ensures '-' in field ==> field[0] == '-'
  {
    assert forall i :: 1 <= i < |field| ==> IsDigit(field[i]) by {
      forall i | 1 <= i < |field|
        ensures IsDigit(field[i])
      {
        if field[0] == '+' || field[0] == '-' { assert field[i] == field[1..][i - 1]; }
      }
    }
    assert field[0] == '+' || field[0] == '-' || IsDigit(field[0]);
  }

  lemma StarField(value: int, minimum: int, maximum: int)
    requires minimum <= value <= maximum
    ensures FieldMatches("*", value, minimum, maximum) && ValidField("*", minimum, maximum)
  {
    FieldWithoutComma("*", value, minimum, maximum);
  }

  lemma DecimalField(n: nat, minimum: int, maximum: int)
    requires minimum <= n <= maximum
    ensures ParseNumber(Decimal(n)) == Some(n) && ValidField(Decimal(n), minimum, maximum)
    ensures IsWord(Decimal(n))
  {
    DecimalRoundTrip(n);
    var s := Decimal(n);
    assert IsDigit(s[0]);
    NoSeparators(s);
    FieldWithoutComma(s, 0, minimum, maximum);
    forall i | 0 <= i < |s|
      ensures !IsSpace(s[i])
    {
      DigitIsNoSpace(s[i]);
    }
  }

  // ---------------------------------------------------------------------------
  // Clock times

  datatype Clock = Clock(hour: nat, minute: nat)

  predicate IsClock(c: Clock) {
    c.hour <= 23 && c.minute <= 59
  }

  /** One or two digits, a colon and two digits, with blanks around. */
  function ParseClock(value: string): Option<Clock> {
    var t := Trim(value);
    var shape := |t| >= 4 && t[|t| - 3] == ':' && |t| <= 5 && AllDigits(t[..|t| - 3]) && AllDigits(t[|t| - 2..]);
    if !shape then None
    else
      var clock := Clock(DecimalValue(t[..|t| - 3]), DecimalValue(t[|t| - 2..]));
      if IsClock(clock) then Some(clock) else None
  }

  function Pad(s: string): string {
    if |s| == 1 then "0" + s else s
  }

  function FormatClock(c: Clock): string {
    Pad(Decimal(c.hour)) + ":" + Pad(Decimal(c.minute))
  }

  lemma PadTwo(n: nat)
    requires n < 100
    ensures |Pad(Decimal(n))| == 2 && AllDigits(Pad(Decimal(n))) && DecimalValue(Pad(Decimal(n))) == n
  {
    DecimalRoundTrip(n);
    if n < 10 {
      var p := Pad(Decimal(n));
      assert p == "0" + [DigitOf(n)];
      assert p[..1] == "0" && "0"[..0] == "";
    } else {
      assert |Decimal(n / 10)| == 1;
    }
  }

  /** A formatted clock time reads back as itself. */
  lemma ClockRoundTrip(c: Clock)
    requires IsClock(c)
    ensures ParseClock(FormatClock(c)) == Some(c)
    ensures |FormatClock(c)| == 5
  {
    hide Decimal, DecimalValue, Pad;
    PadTwo(c.hour);
    PadTwo(c.minute);
    var h, m := Pad(Decimal(c.hour)), Pad(Decimal(c.minute));
    var t := FormatClock(c);
    DigitIsNoSpace(h[0]);
    DigitIsNoSpace(m[1]);
    TrimOfTrimmed(t);
    assert t[..2] == h && t[3..] == m;
  }

  // ---------------------------------------------------------------------------
  // Simple schedules

  datatype Schedule = Daily(time: string) | Weekdays(time: string) | Weekly(time: string, weekday: int)

  function ScheduleToCron(schedule: Schedule): Option<string> {
    var clock := ParseClock(schedule.time);
    if clock.None? then None
    else
      var at := Decimal(clock.value.minute) + " " + Decimal(clock.value.hour);
      match schedule
      case Daily(_) => Some(at + " * * *")
      case Weekdays(_) => Some(at + " * * 1-5")
      case Weekly(_, weekday) =>
        if weekday < 0 || weekday > 6 then None else Some(at + " * * " + Decimal(weekday))
  }

  function CronToSchedule(cron: string): Option<Schedule> {
    if !IsValid(cron) then None
    else
      ValidWords(cron);
      var fields := Split(Normalize(cron), ' ');
      if fields[2] != "*" || fields[3] != "*" then None
      else
        var minute, hour := ParseNumber(fields[0]), ParseNumber(fields[1]);
        if minute.None? || hour.None? then None
        else
          NumberField(fields[0], 0, 59);
          NumberField(fields[1], 0, 23);
          var time := FormatClock(Clock(hour.value, minute.value));
          if fields[4] == "*" then Some(Daily(time))
          else if fields[4] == "1-5" then Some(Weekdays(time))
          else
            var weekday := ParseNumber(fields[4]);
            if weekday.None? || weekday.value < 0 || weekday.value > 7 then None
            else Some(Weekly(time, if weekday.value == 7 then 0 else weekday.value))
  }

  function WeekdayField(schedule: Schedule): string
    requires schedule.Weekly? ==> schedule.weekday >= 0
  {
    match schedule
    case Daily(_) => "*"
    case Weekdays(_) => "1-5"
    case Weekly(_, weekday) => Decimal(weekday)
  }

  // The words of the expression a schedule is written as.
  lemma WordsOfSchedule(schedule: Schedule, clock: Clock)
    requires ParseClock(schedule.time) == Some(clock) && IsClock(clock)
    requires schedule.Weekly? ==> 0 <= schedule.weekday <= 6
    ensures ScheduleToCron(schedule).Some?
    ensures var words := [Decimal(clock.minute), Decimal(clock.hour), "*", "*", WeekdayField(schedule)];
      ScheduleToCron(schedule).value == Join(words, ' ') && Words(ScheduleToCron(schedule).value) == words
  {
    hide Decimal, ParseClock, Words, Join;
    StarIsWord();
    var m, h, d := Decimal(clock.minute), Decimal(clock.hour), WeekdayField(schedule);
    var words := [m, h, "*", "*", d];
    DecimalField(clock.minute, 0, 59);
    DecimalField(clock.hour, 0, 23);
    RangeIsWord();
    if schedule.Weekly? { DecimalField(schedule.weekday, 0, 6); }
    WordsOfJoin(words);
    JoinOfFive(m, h, d);
  }

  lemma JoinOfFive(m: string, h: string, d: string)
    ensures Join([m, h, "*", "*", d], ' ') == m + " " + h + " * * " + d
  {
    var words := [m, h, "*", "*", d];
    assert words[1..] == [h, "*", "*", d];
    assert [h, "*", "*", d][1..] == ["*", "*", d];
    assert ["*", "*", d][1..] == ["*", d];
    assert ["*", d][1..] == [d];
    assert Join([d], ' ') == d;
    assert Join(["*", d], ' ') == "* " + d;
    assert Join(["*", "*", d], ' ') == "* * " + d;
    assert Join([h, "*", "*", d], ' ') == h + " " + ("* * " + d);
    assert Join(words, ' ') == m + " " + (h + " " + ("* * " + d));
  }

  /** Whenever the picker accepts an expression, writing the schedule back gives an
      expression that fires at exactly the same minutes: signs, leading zeros and
      Sunday written as 7 included. */
  lemma SameMinutes(cron: string, t: Moment)
    requires CronToSchedule(cron).Some? && IsMoment(t)
    ensures var schedule := CronToSchedule(cron).value;
      ScheduleToCron(schedule).Some? && (Fires(ScheduleToCron(schedule).value, t) <==> Fires(cron, t))
  {
    hide Decimal, ParseNumber, ParseClock, FormatClock, FieldMatches, ValidField, Words, Join, Normalize;
    ValidWords(cron);
    var fields := Words(cron);
    var schedule := CronToSchedule(cron).value;
    NumberField(fields[0], 0, 59);
    NumberField(fields[1], 0, 23);
    var clock := Clock(ParseNumber(fields[1]).value, ParseNumber(fields[0]).value);
    ClockRoundTrip(clock);
    if fields[4] != "*" && fields[4] != "1-5" { NumberField(fields[4], 0, 7); }
    WordsOfSchedule(schedule, clock);
    DecimalField(clock.minute, 0, 59);
    NumberField(Decimal(clock.minute), 0, 59);
    DecimalField(clock.hour, 0, 23);
    NumberField(Decimal(clock.hour), 0, 23);
    StarField(t.day, 1, 31);
    StarField(t.month, 1, 12);
    if schedule.Weekly? {
      DecimalField(schedule.weekday, 0, 7);
      NumberField(Decimal(schedule.weekday), 0, 7);
    }
  }

  /** The schedule with its clock time written in full. */
  function Padded(schedule: Schedule): Schedule
    requires ParseClock(schedule.time).Some?
  {
    var time := FormatClock(ParseClock(schedule.time).value);
    match schedule
    case Daily(_) => Daily(time)
    case Weekdays(_) => Weekdays(time)
    case Weekly(_, weekday) => Weekly(time, weekday)
  }

  /** Reading back what a schedule is written as gives the schedule, its clock time
      padded. */
  lemma ScheduleRoundTrip(schedule: Schedule)
    requires ScheduleToCron(schedule).Some?
    ensures ParseClock(schedule.time).Some?
    ensures CronToSchedule(ScheduleToCron(schedule).value) == Some(Padded(schedule))
  {
    hide Decimal, ParseNumber, FormatClock, ValidField, Words, Join;
    var clock := ParseClock(schedule.time).value;
    WordsOfSchedule(schedule, clock);
    var cron := ScheduleToCron(schedule).value;
    var words := Words(cron);
    SplitNormalized(cron);
    DecimalField(clock.minute, 0, 59);
    DecimalField(clock.hour, 0, 23);
    StarField(1, 1, 31);
    StarField(1, 1, 12);
    StarField(1, 0, 7);
    RangeFieldIsValid();
    if schedule.Weekly? { DecimalField(schedule.weekday, 0, 7); }
    ShortSchedule(schedule, clock);
    BytesAtMost(cron);
    if schedule.Weekly? { DecimalIsNoRange(schedule.weekday); }
  }

  lemma DecimalIsNoRange(n: nat)
    ensures Decimal(n) != "*" && Decimal(n) != "1-5"
  {
    DecimalRoundTrip(n);
    var star, range := "*", "1-5";
    assert !IsDigit(star[0]) && !IsDigit(range[1]);
  }

  lemma StarIsWord()
    ensures IsWord("*")
  {}

  lemma RangeIsWord()
    ensures IsWord("1-5")
  {}

  lemma RangeSplits()
    ensures Split("1-5", '-') == ["1", "5"]
  {
    assert "1-5" == "1" + ['-'] + "5";
    SplitConcat("1", '-', "5");
    SplitPieces("1", '-');
    SplitPieces("5", '-');
  }

  lemma OneDigitNumber(d: char)
    requires IsDigit(d)
    ensures ParseNumber([d]) == Some(DigitValue(d))
  {
    var s := [d];
    assert s[0] == d && AllDigits(s) && s[..0] == "";
    assert DecimalValue(s) == DigitValue(d);
  }

  lemma RangeFieldIsValid()
    ensures ValidField("1-5", 0, 7)
  {
    hide Split, ParseNumber;
    RangeSplits();
    OneDigitNumber('1');
    OneDigitNumber('5');
    FieldWithoutComma("1-5", 0, 0, 7);
    var range, one, five := "1-5", "1", "5";
    assert range[1] == '-' && one == ['1'] && five == ['5'];
    assert ValidBase(range, 0, 7);
  }

  lemma ShortSchedule(schedule: Schedule, clock: Clock)
    requires IsClock(clock) && (schedule.Weekly? ==> 0 <= schedule.weekday <= 6)
    ensures |Join([Decimal(clock.minute), Decimal(clock.hour), "*", "*", WeekdayField(schedule)], ' ')| <= 13
  {
    JoinOfFive(Decimal(clock.minute), Decimal(clock.hour), WeekdayField(schedule));
    DecimalLength(clock.minute);
    DecimalLength(clock.hour);
    if schedule.Weekly? { DecimalLength(schedule.weekday); }
  }

  lemma DecimalLength(n: nat)
    requires n < 100
    ensures |Decimal(n)| <= 2 && (n < 10 ==> |Decimal(n)| == 1)
  {
    if n >= 10 { assert |Decimal(n / 10)| == 1; }
  }
}
