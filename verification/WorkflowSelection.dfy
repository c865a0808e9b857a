/** Which routines are exported: those whose cadence the file format can carry. */
module WorkflowSelection {
  import opened Common
  import opened Text
  import opened WorkflowMarkdown
  import opened WorkflowLines
  import opened WorkflowRoundTrip
  import Cron

  datatype Routine = Routine(name: string, kind: string, description: Option<string>, cron: Option<string>, timeZone: string)

  function OrEmpty(value: Option<string>): string {
    if value.Some? then value.value else ""
  }

  function TemplateFrom(r: Routine): Template {
    Template(r.name, OrEmpty(r.description), Cron.Normalize(OrEmpty(r.cron)), r.timeZone)
  }

  predicate IsExportable(r: Routine) {
    r.kind == "cron" && Cron.IsValid(Cron.Normalize(OrEmpty(r.cron)))
  }

  function Selected(routines: seq<Routine>): seq<Template> {
    if routines == [] then []
    else
      var r := routines[|routines| - 1];
      Selected(routines[..|routines| - 1]) + (if IsExportable(r) then [TemplateFrom(r)] else [])
  }

  function Unsupported(routines: seq<Routine>): seq<string> {
    if routines == [] then []
    else
      var r := routines[|routines| - 1];
      Unsupported(routines[..|routines| - 1]) + (if IsExportable(r) then [] else [r.name])
  }

  method SelectExportableRoutines(routines: seq<Routine>) returns (templates: seq<Template>, unsupported: seq<string>)
    ensures templates == Selected(routines) && unsupported == Unsupported(routines)
  {
    hide Cron.Normalize, Cron.IsValid;
    templates, unsupported := [], [];
    for i := 0 to |routines|
      invariant templates == Selected(routines[..i]) && unsupported == Unsupported(routines[..i])
    {
      assert routines[..i + 1][..i] == routines[..i];
      var r := routines[i];
      var cron := Cron.Normalize(OrEmpty(r.cron));
      if r.kind != "cron" || !Cron.IsValid(cron) {
        unsupported := unsupported + [r.name];
        continue;
      }
      templates := templates + [Template(r.name, OrEmpty(r.description), cron, r.timeZone)];
    }
    assert routines[..|routines|] == routines;
  }

  function NamesOf(templates: seq<Template>): (names: seq<string>)
    ensures |names| == |templates|
  {
    seq(|templates|, i requires 0 <= i < |templates| => templates[i].name)
  }

  function RoutineNames(routines: seq<Routine>): (names: seq<string>)
    ensures |names| == |routines|
  {
    seq(|routines|, i requires 0 <= i < |routines| => routines[i].name)
  }

  lemma NamesSnoc(templates: seq<Template>, t: Template)
    ensures NamesOf(templates + [t]) == NamesOf(templates) + [t.name]
  {}

  lemma OneMoreName(before: seq<string>, rest: seq<string>, all: seq<string>, name: string)
    requires multiset(before) + multiset(rest) == multiset(all)
    ensures multiset(before + [name]) + multiset(rest) == multiset(all + [name])
    ensures multiset(before) + multiset(rest + [name]) == multiset(all + [name])
  {}

  /** No routine is lost: each is written or named among those left out. */
  lemma {:induction false} EveryRoutineIsNamed(routines: seq<Routine>)
    ensures multiset(NamesOf(Selected(routines))) + multiset(Unsupported(routines)) == multiset(RoutineNames(routines))
  {
    hide IsExportable, NamesOf, TemplateFrom;
    if routines == [] {
      NoNames();
    } else {
      var k := |routines| - 1;
      var front, r := routines[..k], routines[k];
      EveryRoutineIsNamed(front);
      assert RoutineNames(routines) == RoutineNames(front) + [r.name];
      hide RoutineNames;
      OneMoreName(NamesOf(Selected(front)), Unsupported(front), RoutineNames(front), r.name);
      NamesSnoc(Selected(front), TemplateFrom(r));
      SameName(r);
      if IsExportable(r) {
        assert Selected(routines) == Selected(front) + [TemplateFrom(r)] && Unsupported(routines) == Unsupported(front);
      } else {
        assert Selected(routines) == Selected(front) && Unsupported(routines) == Unsupported(front) + [r.name];
      }
      hide Selected, Unsupported;
    }
  }

  ghost predicate Rising(positions: seq<nat>, end: nat) {
    && (forall i :: 0 <= i < |positions| ==> positions[i] < end)
    && (forall i, j :: 0 <= i < j < |positions| ==> positions[i] < positions[j])
  }

  /** A routine that is written in the file: of the kind cron, with an expression that is
      accepted. */
  predicate HasCron(r: Routine) {
    r.kind == "cron" && r.cron.Some? && Cron.IsValid(r.cron.value)
  }

  predicate WritesRoutine(r: Routine, t: Template) {
    && HasCron(r)
    && t == Template(r.name, if r.description.Some? then r.description.value else "", Cron.Normalize(r.cron.value), r.timeZone)
  }

  ghost predicate ChosenAre(routines: seq<Routine>, templates: seq<Template>, positions: seq<nat>) {
    && Rising(positions, |routines|) && |templates| == |positions|
    && forall i :: 0 <= i < |positions| ==> WritesRoutine(routines[positions[i]], templates[i])
  }

  ghost predicate OthersAre(routines: seq<Routine>, names: seq<string>, positions: seq<nat>) {
    && Rising(positions, |routines|) && |names| == |positions|
    && forall i :: 0 <= i < |positions| ==> !HasCron(routines[positions[i]]) && names[i] == routines[positions[i]].name
  }

  lemma OneRoutineMore(routines: seq<Routine>, r: Routine, templates: seq<Template>, names: seq<string>, chosen: seq<nat>, others: seq<nat>)
    requires ChosenAre(routines, templates, chosen) && OthersAre(routines, names, others)
    ensures ChosenAre(routines + [r], templates, chosen) && OthersAre(routines + [r], names, others)
    ensures forall t :: WritesRoutine(r, t) ==> ChosenAre(routines + [r], templates + [t], chosen + [|routines|])
    ensures !HasCron(r) ==> OthersAre(routines + [r], names + [r.name], others + [|routines|])
  {
    hide HasCron, WritesRoutine;
  }

  /** The chosen routines are those with a cron expression, in their order; a missing
      description is empty, and the expression is normalised. The names left out are those of
      the others, in order. */
  lemma {:induction false} SelectionByPosition(routines: seq<Routine>) returns (chosen: seq<nat>, others: seq<nat>)
    ensures ChosenAre(routines, Selected(routines), chosen) && OthersAre(routines, Unsupported(routines), others)
    ensures |chosen| + |others| == |routines|
  {
    hide IsExportable, HasCron, WritesRoutine, TemplateFrom, ChosenAre, OthersAre;
    if routines == [] {
      chosen, others := [], [];
      NoneChosen();
    } else {
      var k := |routines| - 1;
      var front, r := routines[..k], routines[k];
      assert routines == front + [r];
      chosen, others := SelectionByPosition(front);
      OneRoutineMore(front, r, Selected(front), Unsupported(front), chosen, others);
      ExportableHasCron(r);
      assert Selected(front) + [] == Selected(front) && Unsupported(front) + [] == Unsupported(front);
      if IsExportable(r) { chosen := chosen + [k]; } else { others := others + [k]; }
    }
  }

  lemma NoneChosen()
    ensures ChosenAre([], [], []) && OthersAre([], [], [])
  {}

  lemma ExportableHasCron(r: Routine)
    ensures IsExportable(r) <==> HasCron(r)
    ensures HasCron(r) ==> WritesRoutine(r, TemplateFrom(r))
  {
    Cron.NormalizeTwice(OrEmpty(r.cron));
    NothingIsInvalid();
    hide Cron.Normalize, Cron.IsValid;
  }

  lemma NothingIsInvalid()
    ensures !Cron.IsValid("")
  {}

  lemma NoNames()
    ensures NamesOf([]) == []
  {}

  lemma SameName(r: Routine)
    ensures TemplateFrom(r).name == r.name
  {}

  lemma {:induction false} SelectedHaveCron(routines: seq<Routine>, i: nat)
    requires i < |Selected(routines)|
    ensures var t := Selected(routines)[i]; Cron.IsValid(t.cron) && Cron.Normalize(t.cron) == t.cron
  {
    hide Cron.Normalize, Cron.IsValid;
    var k := |routines| - 1;
    if i < |Selected(routines[..k])| {
      SelectedHaveCron(routines[..k], i);
    } else {
      Cron.NormalizeTwice(OrEmpty(routines[k].cron));
    }
  }

  /** A selection that is otherwise valid and clean comes back from its file in order, with
      its cron expressions as they were selected. */
  lemma SelectionComesBack(routines: seq<Routine>, zones: string -> bool)
    requires Selected(routines) != [] && AllValid(Selected(routines), zones)
    requires forall i :: 0 <= i < |Selected(routines)| ==> CleanTemplate(Selected(routines)[i])
    ensures var result := ImportOf(Export(Selected(routines)), zones); var chosen := Selected(routines);
      && result == Import(MapExpected(chosen), [], [])
      && forall i :: 0 <= i < |chosen| ==> result.templates[i].cron == chosen[i].cron && result.templates[i].instructions == chosen[i].instructions
  {
    hide ImportOf, Export, Problems, CleanTemplate, Selected, Cron.Normalize, Cron.IsValid, Trim;
    var chosen := Selected(routines);
    RoundTrip(chosen, zones);
    forall i | 0 <= i < |chosen|
      ensures MapExpected(chosen)[i].cron == chosen[i].cron
    {
      SelectedHaveCron(routines, i);
    }
  }
}
