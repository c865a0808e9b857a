/** Valid templates that do not survive export and import, and when files are stable. */
module WorkflowExamples {
  import opened Text
  import opened WorkflowMarkdown
  import opened WorkflowLines
  import opened WorkflowRoundTrip
  import Cron

  const NINE := "0 9 * * *"

  lemma NineIsValid()
    ensures Cron.IsValid(NINE)
  {
    hide Cron.IsValid, Cron.Normalize, Split, Cron.ParseClock, Cron.FormatClock, Words;
    var clock := Cron.Clock(9, 0);
    Cron.ClockRoundTrip(clock);
    var schedule := Cron.Daily(Cron.FormatClock(clock));
    assert Decimal(0) == "0" && Decimal(9) == "9";
    assert "0" + " " + "9" + " * * *" == NINE;
    Cron.ScheduleRoundTrip(schedule);
  }

  // Enough for a template to be valid.
  lemma ValidTemplate(name: string, instructions: string, zone: string, zones: string -> bool)
    requires name != "" && IsTrimmed(name) && |name| <= NAME_MAX && 4 * |instructions| <= INSTRUCTIONS_MAX_BYTES
    requires zone != "" && IsTrimmed(zone) && zones(zone)
    ensures Problems(Template(name, instructions, NINE, zone), zones) == []
  {
    hide Trim, Cron.IsValid, Cron.Bytes;
    TrimOfTrimmed(name);
    TrimOfTrimmed(zone);
    Cron.BytesAtMost(instructions);
    NineIsValid();
  }

  // A valid template that is not clean does not come back.
  lemma UncleanIsChanged(t: Template, zones: string -> bool)
    requires Problems(t, zones) == [] && !CleanTemplate(t)
    ensures ImportOf(Export([t]), zones) != Import([Expected(t)], [], [])
  {
    hide ImportOf, Export, Problems, CleanTemplate, Expected;
    RoundTrip([t], zones);
    assert !CleanTemplate([t][0]);
    assert MapExpected([t]) == [Expected(t)];
  }

  predicate IsUtc(zone: string) {
    zone == "UTC"
  }

  /** A body with a carriage return is valid, and comes back changed. */
  lemma CarriageReturnIsLost()
    ensures var t := Template("Report", "one\rtwo", NINE, "UTC");
      Problems(t, IsUtc) == [] && ImportOf(Export([t]), IsUtc) != Import([Expected(t)], [], [])
  {
    hide ImportOf, Export, Problems, Expected, Trim;
    var body := "one\rtwo";
    var t := Template("Report", body, NINE, "UTC");
    ValidTemplate("Report", body, "UTC", IsUtc);
    assert IsControl(body[3]);
    UncleanIsChanged(t, IsUtc);
  }

  /** A name with a line separator is valid, and the template does not come back as it was. */
  lemma LineSeparatorIsLost()
    ensures var t := Template("Daily\U{2028}report", "Summarise.", NINE, "UTC");
      Problems(t, IsUtc) == [] && ImportOf(Export([t]), IsUtc) != Import([Expected(t)], [], [])
  {
    hide ImportOf, Export, Problems, Expected, Trim;
    var name := "Daily\U{2028}report";
    var t := Template(name, "Summarise.", NINE, "UTC");
    ValidTemplate(name, "Summarise.", "UTC", IsUtc);
    TrimOfTrimmed(name);
    assert IsLineTerminator(name[5]);
    UncleanIsChanged(t, IsUtc);
  }

  /** Zones that are accepted with backticks around them. */
  predicate IsCodedUtc(zone: string) {
    zone == "``UTC``" || zone == "`UTC`" || zone == "UTC"
  }

  lemma CodedZones()
    ensures IsTrimmed("``UTC``") && IsTrimmed("`UTC`") && IsInlineCode("``UTC``") && IsInlineCode("`UTC`")
    ensures var zone := "``UTC``"; !HasLineTerminator(zone) && zone[1..|zone| - 1] == "`UTC`"
  {
    var zone, inner := "``UTC``", "`UTC`";
    assert zone[1..|zone| - 1] == inner;
  }

  lemma CodedTemplate(t: Template)
    requires t == Template("Report", "Summarise.", NINE, "``UTC``")
    ensures Findable(t) && Trim(t.timeZone) != "" && Imported(t).timeZone == "`UTC`" && Imported(t).name == "Report"
    ensures Imported(t).instructions == "Summarise." && Imported(t).cron == Cron.Normalize(NINE)
  {
    hide Trim, HasLineTerminator;
    CodedZones();
    TrimOfTrimmed("``UTC``");
    TrimOfTrimmed("`UTC`");
    TrimOfTrimmed("Report");
    hide Cron.Normalize;
  }

  lemma CodedIsValid(t: Template)
    requires t == Template("Report", "Summarise.", NINE, "``UTC``")
    ensures Problems(Imported(t), IsCodedUtc) == []
  {
    hide Trim, Imported, Findable, Cron.Normalize, Cron.IsValid, Cron.Bytes;
    CodedTemplate(t);
    CodedZones();
    TrimOfTrimmed("`UTC`");
    TrimOfTrimmed("Report");
    NineIsValid();
    Cron.NormalizeTwice(NINE);
    Cron.BytesAtMost("Summarise.");
  }

  lemma CodedImports(t: Template)
    requires t == Template("Report", "Summarise.", NINE, "``UTC``")
    ensures var templates := ImportOf(Export([t]), IsCodedUtc).templates;
      |templates| == 1 && templates[0].timeZone == "`UTC`"
  {
    hide ImportOf, Export, Problems, Imported, Findable, Trim;
    CodedTemplate(t);
    CodedIsValid(t);
    assert AllFindable([t]);
    assert AllValid(MapImported([t]), IsCodedUtc);
    ImportOfExport([t], IsCodedUtc);
  }

  /** A file whose zone has two pairs of backticks: imported once it still looks like inline
      code, and exporting and importing again changes it. */
  lemma CodedZoneIsUnstable()
    ensures var text := Export([Template("Report", "Summarise.", NINE, "``UTC``")]);
      var templates := ImportOf(text, IsCodedUtc).templates;
      && |templates| == 1 && templates[0].timeZone == "`UTC`"
      && ImportOf(Export(templates), IsCodedUtc) != Import(templates, [], [])
  {
    hide ImportOf, Export, IsInlineCode;
    var t := Template("Report", "Summarise.", NINE, "``UTC``");
    CodedImports(t);
    CodedZones();
    var templates := ImportOf(Export([t]), IsCodedUtc).templates;
    ReimportIsStable(Export([t]), IsCodedUtc);
    assert IsInlineCode(templates[0].timeZone);
  }

  /** With zone names that are never written as inline code, as those of a time-zone
      database, every imported file is stable. */
  lemma PlainZonesAreStable(text: string, zones: string -> bool)
    requires forall zone :: zones(zone) ==> !IsInlineCode(zone)
    requires ImportOf(text, zones).templates != []
    ensures var templates := ImportOf(text, zones).templates;
      ImportOf(Export(templates), zones) == Import(templates, [], [])
  {
    hide ImportOf, Export, Settled, IsInlineCode, Problems;
    ImportIsTidy(text, zones);
    ReimportIsStable(text, zones);
    var templates := ImportOf(text, zones).templates;
    forall i | 0 <= i < |templates|
      ensures !IsInlineCode(templates[i].timeZone)
    {
      ZoneAsAccepted(templates[i], zones);
    }
  }

  lemma ZoneAsAccepted(t: Template, zones: string -> bool)
    requires Settled(t) && Problems(t, zones) == []
    ensures zones(t.timeZone)
  {
    hide Trim, Tidy, Cron.IsValid, Cron.Bytes, Cron.Normalize;
  }
}
