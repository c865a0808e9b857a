/** What cron expressions mean to the scheduler, whose matching the client's check is meant to
    agree with: every accepted expression fires, and only at times of the calendar. */
module CronMeaning {
  import opened Common
  import opened Text
  import opened Cron

  // ---------------------------------------------------------------------------
  // Items

  /** From a to b in steps. */
  ghost predicate IsProgression(item: string, minimum: int, maximum: int, a: int, b: int, step: int) {
    forall value :: MatchItem(item, value, minimum, maximum)
      == if step >= 1 && a <= value <= b && (value - a) % step == 0 then Hits else Misses
  }

  lemma BaseIsRange(base: string, step: int, minimum: int, maximum: int) returns (a: int, b: int)
    requires ValidBase(base, minimum, maximum) && step >= 1 && minimum <= maximum
    ensures minimum <= a <= b <= maximum
    ensures forall value :: MatchBase(base, step, value, minimum, maximum) == MatchRange(a, b, step, value)
  {
    hide MatchRange, ParseNumber;
    if base == "*" {
      a, b := minimum, maximum;
    } else if '-' in base {
      var bounds := Split(base, '-');
      a, b := ParseNumber(bounds[0]).value, ParseNumber(bounds[1]).value;
    } else {
      a, b := ParseNumber(base).value, ParseNumber(base).value;
    }
  }

  /** A valid item is understood by the scheduler, as a progression inside the range. */
  lemma ItemIsProgression(item: string, minimum: int, maximum: int) returns (a: int, b: int, step: int)
    requires ValidItem(item, minimum, maximum) && minimum <= maximum
    ensures minimum <= a <= b <= maximum && 1 <= step <= maximum - minimum + 1
    ensures IsProgression(item, minimum, maximum, a, b, step)
  {
    hide ParseNumber, ValidBase, MatchBase;
    if '/' in item {
      var parts := Split(item, '/');
      step := ParseNumber(parts[1]).value;
      a, b := BaseIsRange(parts[0], step, minimum, maximum);
    } else {
      step := 1;
      a, b := BaseIsRange(item, step, minimum, maximum);
    }
  }

  // ---------------------------------------------------------------------------
  // Fields

  ghost predicate SomeHits(items: seq<string>, value: int, minimum: int, maximum: int) {
    exists k :: 0 <= k < |items| && MatchItem(items[k], value, minimum, maximum) == Hits
  }

  lemma {:induction false} SomeItemHits(items: seq<string>, value: int, minimum: int, maximum: int)
    requires forall k :: 0 <= k < |items| ==> !MatchItem(items[k], value, minimum, maximum).Malformed?
    ensures MatchItems(items, value, minimum, maximum) <==> SomeHits(items, value, minimum, maximum)
  {
    hide MatchItem;
    if items != [] {
      var rest := items[1..];
      SomeItemHits(rest, value, minimum, maximum);
      if k :| 0 <= k < |items| && MatchItem(items[k], value, minimum, maximum) == Hits {
        if k > 0 { assert rest[k - 1] == items[k]; }
      }
      if k :| 0 <= k < |rest| && MatchItem(rest[k], value, minimum, maximum) == Hits {
        assert items[k + 1] == rest[k];
      }
    }
  }

  lemma ItemsAreUnderstood(items: seq<string>, value: int, minimum: int, maximum: int)
    requires minimum <= maximum && forall k :: 0 <= k < |items| ==> ValidItem(items[k], minimum, maximum)
    ensures forall k :: 0 <= k < |items| ==>
      && !MatchItem(items[k], value, minimum, maximum).Malformed?
      && (MatchItem(items[k], value, minimum, maximum) == Hits ==> minimum <= value <= maximum)
  {
    hide MatchItem, ValidItem;
    forall k | 0 <= k < |items|
      ensures !MatchItem(items[k], value, minimum, maximum).Malformed?
      ensures MatchItem(items[k], value, minimum, maximum) == Hits ==> minimum <= value <= maximum
    {
      var a, b, step := ItemIsProgression(items[k], minimum, maximum);
    }
  }

  /** A valid field matches what one of its items does: always a value of the range, and at
      least one. */
  lemma FieldFires(field: string, minimum: int, maximum: int) returns (first: int)
    requires ValidField(field, minimum, maximum) && minimum <= maximum
    ensures forall value :: FieldMatches(field, value, minimum, maximum) <==> SomeHits(Split(field, ','), value, minimum, maximum)
    ensures forall value :: FieldMatches(field, value, minimum, maximum) ==> minimum <= value <= maximum
    ensures minimum <= first <= maximum && FieldMatches(field, first, minimum, maximum)
  {
    hide MatchItem, ValidItem, MatchItems, Split;
    var items := Split(field, ',');
    forall value
      ensures FieldMatches(field, value, minimum, maximum) <==> SomeHits(items, value, minimum, maximum)
      ensures FieldMatches(field, value, minimum, maximum) ==> minimum <= value <= maximum
    {
      ItemsAreUnderstood(items, value, minimum, maximum);
      SomeItemHits(items, value, minimum, maximum);
    }
    assert ValidItem(items[0], minimum, maximum);
    var a, b, step := ItemIsProgression(items[0], minimum, maximum);
    first := a;
    assert MatchItem(items[0], a, minimum, maximum) == Hits;
  }

  /** Every accepted expression fires at some moment of the calendar. */
  lemma AcceptedFires(cron: string) returns (t: Moment)
    requires IsValid(cron)
    ensures IsMoment(t) && Fires(cron, t)
  {
    hide FieldMatches, ValidField, Words, Normalize;
    ValidWords(cron);
    var fields := Words(cron);
    var minute := FieldFires(fields[0], 0, 59);
    var hour := FieldFires(fields[1], 0, 23);
    var day := FieldFires(fields[2], 1, 31);
    var month := FieldFires(fields[3], 1, 12);
    var weekday := FieldFires(fields[4], 0, 7);
    t := Moment(minute, hour, day, month, if weekday == 7 then 0 else weekday);
  }

  // ---------------------------------------------------------------------------
  // Numbers, ranges, steps and lists

  lemma NumberIsValid(n: nat, minimum: nat, maximum: nat)
    ensures ParseNumber(Decimal(n)) == Some(n) && IsWord(Decimal(n))
    ensures ',' !in Decimal(n) && '/' !in Decimal(n) && '-' !in Decimal(n) && Decimal(n) != "*"
    ensures ValidField(Decimal(n), minimum, maximum) <==> minimum <= n <= maximum
    ensures forall value :: FieldMatches(Decimal(n), value, minimum, maximum) <==> value == n
  {
    DecimalField(n, n, n);
    var s := Decimal(n);
    NoSeparators(s);
    DecimalRoundTrip(n);
    assert IsDigit(s[0]);
    FieldWithoutComma(s, 0, minimum, maximum);
    forall value
      ensures FieldMatches(s, value, minimum, maximum) <==> value == n
    {
      FieldWithoutComma(s, value, minimum, maximum);
    }
  }

  /** A number may carry a sign; anything but digits after it is no number. */
  lemma SignedNumbers(digits: string)
    requires digits != "" && AllDigits(digits)
    ensures var n: int := DecimalValue(digits);
      ParseNumber(digits) == ParseNumber("+" + digits) == Some(n) && ParseNumber("-" + digits) == Some(-n)
  {
    hide DecimalValue;
    assert IsDigit(digits[0]);
    assert ("+" + digits)[1..] == digits && ("-" + digits)[1..] == digits;
  }

  function FiveNumbers(minute: nat, hour: nat, day: nat, month: nat, weekday: nat): string {
    Join([Decimal(minute), Decimal(hour), Decimal(day), Decimal(month), Decimal(weekday)], ' ')
  }

  lemma FiveWords(minute: nat, hour: nat, day: nat, month: nat, weekday: nat)
    ensures var cron := FiveNumbers(minute, hour, day, month, weekday);
      && Words(cron) == [Decimal(minute), Decimal(hour), Decimal(day), Decimal(month), Decimal(weekday)]
      && Normalize(cron) == cron && Split(cron, ' ') == Words(cron) && cron != ""
  {
    hide Decimal, Words, Join, Split;
    var words := [Decimal(minute), Decimal(hour), Decimal(day), Decimal(month), Decimal(weekday)];
    NumberIsWord(minute);
    NumberIsWord(hour);
    NumberIsWord(day);
    NumberIsWord(month);
    NumberIsWord(weekday);
    WordsOfJoin(words);
    SplitNormalized(FiveNumbers(minute, hour, day, month, weekday));
    NoWords();
  }

  lemma NumberIsWord(n: nat)
    ensures IsWord(Decimal(n))
  {
    NumberIsValid(n, 0, 0);
  }

  lemma NoWords()
    ensures Words("") == []
  {}

  /** An expression of five numbers is accepted exactly when they are a minute, an hour, a day,
      a month and a weekday, Sunday also as seven; it then fires at that minute, in that month,
      on the day or on the weekday. */
  lemma NumbersAccepted(minute: nat, hour: nat, day: nat, month: nat, weekday: nat)
    ensures var cron := FiveNumbers(minute, hour, day, month, weekday);
      IsValid(cron) <==> minute <= 59 && hour <= 23 && 1 <= day <= 31 && 1 <= month <= 12 && weekday <= 7
    ensures var cron := FiveNumbers(minute, hour, day, month, weekday); IsValid(cron) ==>
      forall t :: IsMoment(t) ==>
        (Fires(cron, t) <==> t.minute == minute && t.hour == hour && t.month == month
                             && (t.day == day || t.weekday == (if weekday == 7 then 0 else weekday)))
  {
    hide IsValid, Fires, FiveNumbers;
    NumbersAreValid(minute, hour, day, month, weekday);
    forall t | IsMoment(t) && IsValid(FiveNumbers(minute, hour, day, month, weekday))
      ensures Fires(FiveNumbers(minute, hour, day, month, weekday), t) <==>
        t.minute == minute && t.hour == hour && t.month == month && (t.day == day || t.weekday == (if weekday == 7 then 0 else weekday))
    {
      NumbersFire(minute, hour, day, month, weekday, t);
    }
  }

  lemma NumbersAreValid(minute: nat, hour: nat, day: nat, month: nat, weekday: nat)
    ensures IsValid(FiveNumbers(minute, hour, day, month, weekday))
       <==> minute <= 59 && hour <= 23 && 1 <= day <= 31 && 1 <= month <= 12 && weekday <= 7
  {
    hide Decimal, Words, Join, Split, FieldMatches, ValidField, Normalize, FiveNumbers, Bytes, IsWord, ParseNumber;
    FiveWords(minute, hour, day, month, weekday);
    NumberIsValid(minute, 0, 59);
    NumberIsValid(hour, 0, 23);
    NumberIsValid(day, 1, 31);
    NumberIsValid(month, 1, 12);
    NumberIsValid(weekday, 0, 7);
    if minute <= 59 && hour <= 23 && 1 <= day <= 31 && 1 <= month <= 12 && weekday <= 7 {
      FewBytes(minute, hour, day, month, weekday);
    }
  }

  lemma NumbersFire(minute: nat, hour: nat, day: nat, month: nat, weekday: nat, t: Moment)
    requires IsMoment(t) && weekday <= 7
    ensures Fires(FiveNumbers(minute, hour, day, month, weekday), t) <==>
      t.minute == minute && t.hour == hour && t.month == month && (t.day == day || t.weekday == (if weekday == 7 then 0 else weekday))
  {
    hide Decimal, Words, Join, Split, FieldMatches, ValidField, Normalize, FiveNumbers, IsWord, ParseNumber;
    FiveWords(minute, hour, day, month, weekday);
    NumberIsValid(minute, 0, 59);
    NumberIsValid(hour, 0, 23);
    NumberIsValid(day, 1, 31);
    NumberIsValid(month, 1, 12);
    NumberIsValid(weekday, 0, 7);
  }

  /** Five valid fields are accepted exactly when they are no longer than 256 bytes. */
  lemma LengthIsLimited(cron: string)
    requires |Words(cron)| == 5 && ValidFields(Words(cron))
    ensures IsValid(cron) <==> Bytes(Normalize(cron)) <= 256
  {
    hide ValidFields, Bytes, Words, Split;
    SplitNormalized(cron);
    NormalIsLong(cron);
  }

  lemma NormalIsLong(cron: string)
    requires |Words(cron)| == 5
    ensures Normalize(cron) != ""
  {
    hide Words;
    WordsAreWords(cron);
    assert IsWord(Words(cron)[0]);
  }

  lemma FiresByFields(cron: string, a: string, b: string, c: string, d: string, e: string, t: Moment)
    requires Words(cron) == [a, b, c, d, e]
    ensures Fires(cron, t) <==>
      && FieldMatches(a, t.minute, 0, 59) && FieldMatches(b, t.hour, 0, 23) && FieldMatches(d, t.month, 1, 12)
      && (if c != "*" && e != "*" then FieldMatches(c, t.day, 1, 31) || WeekdayMatches(e, t.weekday)
          else FieldMatches(c, t.day, 1, 31) && WeekdayMatches(e, t.weekday))
  {
    hide Words, FieldMatches, WeekdayMatches;
  }

  /** With a star for the weekday only the day counts. */
  lemma StarLeavesDay(minute: nat, hour: nat, day: nat, month: nat, t: Moment)
    requires IsMoment(t)
    ensures Fires(Join([Decimal(minute), Decimal(hour), Decimal(day), Decimal(month), "*"], ' '), t)
       <==> t.minute == minute && t.hour == hour && t.month == month && t.day == day
  {
    hide Decimal, Words, Join, Split, FieldMatches, ValidField, IsWord, ParseNumber, Fires;
    var m, h, d, o := Decimal(minute), Decimal(hour), Decimal(day), Decimal(month);
    NumberIsValid(minute, 0, 59);
    NumberIsValid(hour, 0, 23);
    NumberIsValid(day, 1, 31);
    NumberIsValid(month, 1, 12);
    StarIsWord();
    StarField(t.weekday, 0, 7);
    WordsOfJoin([m, h, d, o, "*"]);
    FiresByFields(Join([m, h, d, o, "*"], ' '), m, h, d, o, "*", t);
  }

  /** With a star for the day only the weekday counts. */
  lemma StarLeavesWeekday(minute: nat, hour: nat, month: nat, weekday: nat, t: Moment)
    requires IsMoment(t) && weekday <= 7
    ensures Fires(Join([Decimal(minute), Decimal(hour), "*", Decimal(month), Decimal(weekday)], ' '), t)
       <==> t.minute == minute && t.hour == hour && t.month == month && t.weekday == (if weekday == 7 then 0 else weekday)
  {
    hide Decimal, Words, Join, Split, FieldMatches, ValidField, IsWord, ParseNumber, Fires;
    var m, h, o, w := Decimal(minute), Decimal(hour), Decimal(month), Decimal(weekday);
    NumberIsValid(minute, 0, 59);
    NumberIsValid(hour, 0, 23);
    NumberIsValid(month, 1, 12);
    NumberIsValid(weekday, 0, 7);
    StarIsWord();
    StarField(t.day, 1, 31);
    WordsOfJoin([m, h, "*", o, w]);
    FiresByFields(Join([m, h, "*", o, w], ' '), m, h, "*", o, w, t);
  }

  lemma FewBytes(minute: nat, hour: nat, day: nat, month: nat, weekday: nat)
    requires minute < 100 && hour < 100 && day < 100 && month < 100 && weekday < 100
    ensures Bytes(FiveNumbers(minute, hour, day, month, weekday)) <= 256
  {
    hide Decimal;
    DecimalLength(minute);
    DecimalLength(hour);
    DecimalLength(day);
    DecimalLength(month);
    DecimalLength(weekday);
    var m, h, d, o, w := Decimal(minute), Decimal(hour), Decimal(day), Decimal(month), Decimal(weekday);
    JoinOfNumbers(m, h, d, o, w);
    BytesAtMost(FiveNumbers(minute, hour, day, month, weekday));
  }

  lemma JoinOfNumbers(m: string, h: string, d: string, o: string, w: string)
    ensures Join([m, h, d, o, w], ' ') == m + " " + h + " " + d + " " + o + " " + w
  {
    assert [m, h, d, o, w][1..] == [h, d, o, w] && [h, d, o, w][1..] == [d, o, w];
    assert [d, o, w][1..] == [o, w] && [o, w][1..] == [w];
    assert Join([w], ' ') == w;
    assert Join([o, w], ' ') == o + [' '] + w;
    assert Join([d, o, w], ' ') == d + [' '] + (o + [' '] + w);
    assert Join([h, d, o, w], ' ') == h + [' '] + (d + [' '] + (o + [' '] + w));
  }

  /** From a to b, every step-th value. */
  lemma RangeField(a: nat, b: nat, step: nat, minimum: nat, maximum: nat)
    ensures var field := Decimal(a) + "-" + Decimal(b) + "/" + Decimal(step);
      && (ValidField(field, minimum, maximum) <==> minimum <= a <= b <= maximum && 1 <= step <= maximum - minimum + 1)
      && (step >= 1 ==> forall value :: FieldMatches(field, value, minimum, maximum) <==> a <= value <= b && (value - a) % step == 0)
  {
    hide Decimal, ParseNumber, MatchItems, Split;
    var field := Decimal(a) + "-" + Decimal(b) + "/" + Decimal(step);
    NumberIsValid(a, minimum, maximum);
    NumberIsValid(b, minimum, maximum);
    NumberIsValid(step, minimum, maximum);
    RangeParts(Decimal(a), Decimal(b), Decimal(step));
    FieldWithoutComma(field, 0, minimum, maximum);
    forall value
      ensures step >= 1 ==> (FieldMatches(field, value, minimum, maximum) <==> a <= value <= b && (value - a) % step == 0)
    {
      FieldWithoutComma(field, value, minimum, maximum);
    }
  }

  lemma RangeParts(a: string, b: string, step: string)
    requires a != "" && '-' !in a && '-' !in b && '/' !in a && '/' !in b && '/' !in step && ',' !in a && ',' !in b && ',' !in step
    ensures var range, field := a + "-" + b, a + "-" + b + "/" + step;
      && Split(field, '/') == [range, step] && Split(range, '-') == [a, b]
      && '/' in field && ',' !in field && '-' in range && range != "*"
  {
    hide Split;
    var range, field := a + "-" + b, a + "-" + b + "/" + step;
    SplitPieces(a, '-');
    SplitPieces(b, '-');
    SplitConcat(a, '-', b);
    assert range[|a|] == '-' && field[|range|] == '/';
    assert range == a + ['-'] + b && field == range + ['/'] + step;
    SplitPieces(range, '/');
    SplitPieces(step, '/');
    SplitConcat(range, '/', step);
    var star := "*";
    assert |range| > |star|;
  }

  /** Every step-th value of the whole range. */
  lemma StepField(step: nat, minimum: nat, maximum: nat)
    requires minimum <= maximum
    ensures var field := "*/" + Decimal(step);
      && (ValidField(field, minimum, maximum) <==> 1 <= step <= maximum - minimum + 1)
      && (step >= 1 ==> forall value :: FieldMatches(field, value, minimum, maximum)
                                        <==> minimum <= value <= maximum && (value - minimum) % step == 0)
  {
    hide Decimal, ParseNumber, MatchItems, Split;
    var field := "*/" + Decimal(step);
    NumberIsValid(step, minimum, maximum);
    SplitPieces("*", '/');
    SplitPieces(Decimal(step), '/');
    SplitConcat("*", '/', Decimal(step));
    assert "*" + ['/'] + Decimal(step) == field && field[1] == '/';
    FieldWithoutComma(field, 0, minimum, maximum);
    forall value
      ensures step >= 1 ==> (FieldMatches(field, value, minimum, maximum) <==> minimum <= value <= maximum && (value - minimum) % step == 0)
    {
      FieldWithoutComma(field, value, minimum, maximum);
    }
  }

  lemma {:induction false} MatchConcat(a: seq<string>, b: seq<string>, value: int, minimum: int, maximum: int)
    requires forall k :: 0 <= k < |a| ==> !MatchItem(a[k], value, minimum, maximum).Malformed?
    ensures MatchItems(a + b, value, minimum, maximum) <==> MatchItems(a, value, minimum, maximum) || MatchItems(b, value, minimum, maximum)
  {
    hide MatchItem;
    if a == [] {
      assert a + b == b;
    } else {
      assert (a + b)[1..] == a[1..] + b;
      MatchConcat(a[1..], b, value, minimum, maximum);
    }
  }

  /** A list matches what either part does. */
  lemma ListField(f: string, g: string, minimum: nat, maximum: nat)
    requires minimum <= maximum
    ensures ValidField(f + "," + g, minimum, maximum) <==> ValidField(f, minimum, maximum) && ValidField(g, minimum, maximum)
    ensures ValidField(f, minimum, maximum) ==> forall value ::
      FieldMatches(f + "," + g, value, minimum, maximum)
      <==> FieldMatches(f, value, minimum, maximum) || FieldMatches(g, value, minimum, maximum)
  {
    hide MatchItem, ValidItem, MatchItems, Split;
    SplitConcat(f, ',', g);
    var a, b := Split(f, ','), Split(g, ',');
    assert f + "," + g == f + [','] + g;
    if ValidField(f + "," + g, minimum, maximum) {
      forall k | 0 <= k < |b|
        ensures ValidItem(b[k], minimum, maximum)
      {
        assert (a + b)[|a| + k] == b[k];
      }
      forall k | 0 <= k < |a|
        ensures ValidItem(a[k], minimum, maximum)
      {
        assert (a + b)[k] == a[k];
      }
    }
    if ValidField(f, minimum, maximum) {
      forall value
        ensures FieldMatches(f + "," + g, value, minimum, maximum)
          <==> FieldMatches(f, value, minimum, maximum) || FieldMatches(g, value, minimum, maximum)
      {
        ItemsAreUnderstood(a, value, minimum, maximum);
        MatchConcat(a, b, value, minimum, maximum);
      }
    }
  }

  // ---------------------------------------------------------------------------
  // Clock times

  /** The texts that are clock times: one or two digits, a colon and two digits, of an hour and
      a minute of the day. */
  lemma ClockAccepted(value: string, hour: string, minute: string)
    requires Trim(value) == hour + ":" + minute && AllDigits(hour) && AllDigits(minute)
    ensures ParseClock(value) ==
      if 1 <= |hour| <= 2 && |minute| == 2 && DecimalValue(hour) <= 23 && DecimalValue(minute) <= 59
      then Some(Clock(DecimalValue(hour), DecimalValue(minute))) else None
  {
    hide Trim, DecimalValue;
    var t := Trim(value);
    ColonPlace(hour, minute);
    if |t| >= 4 && t[|t| - 3] == ':' {
      assert t[..|t| - 3] == hour && t[|t| - 2..] == minute;
    }
  }

  // The colon is the only character that is no digit.
  lemma ColonPlace(hour: string, minute: string)
    requires AllDigits(hour) && AllDigits(minute)
    ensures var t := hour + ":" + minute; forall k :: 0 <= k < |t| ==> (t[k] == ':' <==> k == |hour|)
  {
    var t := hour + ":" + minute;
    forall k | 0 <= k < |t|
      ensures t[k] == ':' <==> k == |hour|
    {
      if k < |hour| { assert t[k] == hour[k]; } else if k > |hour| { assert t[k] == minute[k - |hour| - 1]; }
    }
  }
}
