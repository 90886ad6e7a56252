/**
  * The scholarship registry: the catalogue of scholarships, the grants made
  * from it and the cafeteria benefits attached to it. It covers the
  * `Residencia` → `Comedor` cascade fired after a grant is created, the
  * assignment and editing of grants by a cafeteria administrator, and the
  * guarded deletion of a catalogue entry.
  */
module GrantRegistry {
  import opened Wrappers
  import Calendar
  import opened Text
  import opened Benefits
  import opened Grants
  import Personas

  /** The scholarship with key `id`, if the catalogue holds one. */
  function ScholarshipOf(ss: seq<Scholarship>, id: nat): (r: Option<Scholarship>)
    ensures r.Some? ==> r.value in ss && r.value.id == id
    ensures r.None? ==> forall i :: 0 <= i < |ss| ==> ss[i].id != id
  {
    if ss == [] then None
    else if ss[0].id == id then Some(ss[0])
    else
      var r := ScholarshipOf(ss[1..], id);
      assert forall i :: 1 <= i < |ss| ==> ss[i] == ss[1..][i - 1];
      r
  }

  /** No two catalogue entries share a key. */
  predicate ScholarshipKeysUnique(ss: seq<Scholarship>) {
    forall i, j :: 0 <= i < |ss| && 0 <= j < |ss| && i != j ==> ss[i].id != ss[j].id
  }

  /** With unique keys, a stored scholarship is the one found by its key. */
  lemma {:induction false} ScholarshipOfFinds(ss: seq<Scholarship>, s: Scholarship)
    requires ScholarshipKeysUnique(ss) && s in ss
    ensures ScholarshipOf(ss, s.id) == Some(s)
  {
    if ss[0] != s {
      assert ss[0].id != s.id by {
        var j :| 0 <= j < |ss| && ss[j] == s;
        assert j != 0;
      }
      assert ScholarshipKeysUnique(ss[1..]) by {
        forall i, j | 0 <= i < |ss[1..]| && 0 <= j < |ss[1..]| && i != j
          ensures ss[1..][i].id != ss[1..][j].id
        {
          assert ss[1..][i] == ss[i + 1] && ss[1..][j] == ss[j + 1];
        }
      }
      ScholarshipOfFinds(ss[1..], s);
    }
  }

  /** The scholarship with key `id` exists and is named `name` exactly. */
  predicate Named(ss: seq<Scholarship>, id: nat, name: string) {
    ScholarshipOf(ss, id).Some? && ScholarshipOf(ss, id).value.name == name
  }

  /** The rows `Beca.objects.get(tipo='Comedor', activa=True)` looks at. */
  predicate IsComedorEntry(s: Scholarship) {
    s.active && s.name == "Comedor"
  }

  function ComedorEntries(ss: seq<Scholarship>): (r: seq<Scholarship>)
    ensures |r| <= |ss|
    ensures forall s :: s in r <==> s in ss && IsComedorEntry(s)
  {
    if ss == [] then []
    else (if IsComedorEntry(ss[0]) then [ss[0]] else []) + ComedorEntries(ss[1..])
  }

  /** The states in which an existing `Comedor` grant blocks the cascade. */
  predicate Blocking(st: GrantState) {
    st == Activa || st == Aprobada || st == Pendiente
  }

  /** Grant `g` is a `Comedor` grant of `student` in a blocking state. The
      student is compared as the query does, so a grant without a student
      matches a trigger without one. */
  predicate Blocks(ss: seq<Scholarship>, g: Grant, student: Option<nat>) {
    g.student == student && Named(ss, g.scholarship, "Comedor") && Blocking(g.state)
  }

  predicate AnyBlocks(ss: seq<Scholarship>, gs: seq<Grant>, student: Option<nat>) {
    exists i :: 0 <= i < |gs| && Blocks(ss, gs[i], student)
  }

  datatype CascadeOutcome =
    | NoTrigger
    | NoCatalogueEntry
    | Blocked
    | Created(grant: Grant)
    | Crashed

  /** The grants a cascade outcome adds to the store. */
  function Added(o: CascadeOutcome): seq<Grant> {
    if o.Created? then [o.grant] else []
  }

  /** The `Comedor` grant created for `trigger`: same student, dates and
      state, the approval date only for an approved state, and no amount. */
  function CascadeGrant(trigger: Grant, comedor: nat, id: nat): Grant {
    Grant(id, trigger.student, None, comedor, trigger.start, trigger.end, trigger.state,
          if Approved(trigger.state) then trigger.approvedOn else None, None)
  }

  /** `crear_beca_comedor_automatica` with the create call restricted to
      the fields a grant has: on the creation of a grant of the scholarship
      named exactly `Residencia`, the single active `Comedor` entry is
      looked up (none: nothing happens; several: the lookup raises), an
      existing blocking `Comedor` grant of the student stops the rule, and
      otherwise the copied grant is inserted, which the uniqueness
      constraint may refuse. `id` is the key the insert would take. */
  function ComedorCascade(ss: seq<Scholarship>, gs: seq<Grant>, trigger: Grant, created: bool, id: nat): CascadeOutcome {
    if !created || !Named(ss, trigger.scholarship, "Residencia") then NoTrigger
    else
      var entries := ComedorEntries(ss);
      if |entries| == 0 then NoCatalogueEntry
      else if |entries| > 1 then Crashed
      else if AnyBlocks(ss, gs, trigger.student) then Blocked
      else
        var g := CascadeGrant(trigger, entries[0].id, id);
        if Insertable(gs, g) then Created(g) else Crashed
  }

  /** The rule as written: before inserting it reads the student's menu
      preference, which fails when the trigger names no student, and then
      passes `preferencia_menu` to the grant constructor, which a grant does
      not accept, so every path that would insert raises instead. */
  function ComedorCascadeAsWritten(ss: seq<Scholarship>, gs: seq<Grant>, trigger: Grant, created: bool, id: nat): CascadeOutcome {
    if !created || !Named(ss, trigger.scholarship, "Residencia") then NoTrigger
    else
      var entries := ComedorEntries(ss);
      if |entries| == 0 then NoCatalogueEntry
      else if |entries| > 1 then Crashed
      else if AnyBlocks(ss, gs, trigger.student) then Blocked
      else Crashed
  }

  /** The rule as written never inserts a grant: it agrees with the
      corrected rule except that every insert becomes a crash. */
  lemma AsWrittenNeverCreates(ss: seq<Scholarship>, gs: seq<Grant>, trigger: Grant, created: bool, id: nat)
    ensures !ComedorCascadeAsWritten(ss, gs, trigger, created, id).Created?
    ensures ComedorCascade(ss, gs, trigger, created, id).Created? ==>
              ComedorCascadeAsWritten(ss, gs, trigger, created, id) == Crashed
    ensures !ComedorCascade(ss, gs, trigger, created, id).Created? ==>
              ComedorCascadeAsWritten(ss, gs, trigger, created, id) == ComedorCascade(ss, gs, trigger, created, id)
  {
  }

  /** A first `Residencia` grant for a student, with both catalogue entries
      present: the corrected rule creates the `Comedor` grant, the rule as
      written raises. */
  lemma AsWrittenCrashesOnFirstResidencia()
    ensures var ss := [Scholarship(1, "Residencia", true, false, None, false),
                       Scholarship(2, "Comedor", true, false, None, true)];
            var trigger := Grant(7, Some(3), None, 1, None, None, Activa, None, None);
            ComedorCascade(ss, [trigger], trigger, true, 8) ==
              Created(Grant(8, Some(3), None, 2, None, None, Activa, None, None)) &&
            ComedorCascadeAsWritten(ss, [trigger], trigger, true, 8) == Crashed
  {
    var ss := [Scholarship(1, "Residencia", true, false, None, false),
               Scholarship(2, "Comedor", true, false, None, true)];
    var trigger := Grant(7, Some(3), None, 1, None, None, Activa, None, None);
    assert ss[1..][1..] == [];
    assert ComedorEntries(ss) == [ss[1]];
    assert ScholarshipOf(ss, 1) == Some(ss[0]);
    assert !AnyBlocks(ss, [trigger], trigger.student) by {
      assert ScholarshipOf(ss, 1).value.name != "Comedor";
    }
  }

  /** The rule fires only on the creation of a grant of the scholarship
      named exactly `Residencia`, and needs exactly one active entry named
      exactly `Comedor`: without one nothing happens, with several the
      lookup raises. */
  lemma CascadeTrigger(ss: seq<Scholarship>, gs: seq<Grant>, trigger: Grant, created: bool, id: nat)
    ensures var o := ComedorCascade(ss, gs, trigger, created, id);
            (o != NoTrigger <==> created && Named(ss, trigger.scholarship, "Residencia")) &&
            (o != NoTrigger ==>
               (o == NoCatalogueEntry <==> |ComedorEntries(ss)| == 0) &&
               (|ComedorEntries(ss)| > 1 ==> o == Crashed))
  {
  }

  /** With the names the seeding script uses, `Beca Residencia` and
      `Beca Comedor`, the rule never inserts anything: a trigger of that
      name does not fire it, and a catalogue without an entry named
      exactly `Comedor` leaves it nothing to copy. */
  lemma SeededNamesNeverCascade(ss: seq<Scholarship>, gs: seq<Grant>, trigger: Grant, created: bool, id: nat)
    ensures Named(ss, trigger.scholarship, "Beca Residencia") ==> ComedorCascade(ss, gs, trigger, created, id) == NoTrigger
    ensures (forall i :: 0 <= i < |ss| ==> ss[i].name != "Comedor") ==>
              ComedorCascade(ss, gs, trigger, created, id) in {NoTrigger, NoCatalogueEntry}
  {
    if forall i :: 0 <= i < |ss| ==> ss[i].name != "Comedor" {
      if |ComedorEntries(ss)| > 0 {
        assert ComedorEntries(ss)[0] in ComedorEntries(ss);
      }
    }
  }

  /** The inserted grant copies the trigger's student, dates and state,
      carries the approval date only for an approved state, names the
      single active `Comedor` entry and fits the uniqueness constraint. */
  lemma CascadeCopiesTrigger(ss: seq<Scholarship>, gs: seq<Grant>, trigger: Grant, id: nat)
    requires ScholarshipKeysUnique(ss)
    requires ComedorCascade(ss, gs, trigger, true, id).Created?
    ensures var g := ComedorCascade(ss, gs, trigger, true, id).grant;
            g.id == id && g.student == trigger.student && g.incoming.None? &&
            g.start == trigger.start && g.end == trigger.end && g.state == trigger.state &&
            (Approved(trigger.state) ==> g.approvedOn == trigger.approvedOn) &&
            (!Approved(trigger.state) ==> g.approvedOn.None?) &&
            g.amount.None? && Named(ss, g.scholarship, "Comedor") &&
            ScholarshipOf(ss, g.scholarship).value.active && Insertable(gs, g)
  {
    var e := ComedorEntries(ss)[0];
    assert e in ComedorEntries(ss);
    ScholarshipOfFinds(ss, e);
  }

  /** The inserted grant is a `Comedor` grant, so its own creation does not
      fire the rule again: at most one grant is added per trigger. */
  lemma CascadeNoRetrigger(ss: seq<Scholarship>, gs: seq<Grant>, trigger: Grant, id: nat, next: nat)
    requires ScholarshipKeysUnique(ss)
    requires ComedorCascade(ss, gs, trigger, true, id).Created?
    ensures var g := ComedorCascade(ss, gs, trigger, true, id).grant;
            ComedorCascade(ss, gs + [g], g, true, next) == NoTrigger
  {
    CascadeCopiesTrigger(ss, gs, trigger, id);
  }

  /** A `Comedor` grant of the student in state ACTIVA, APROBADA or
      PENDIENTE stops the rule once it has found its catalogue entry. */
  lemma BlockingGrantBlocks(ss: seq<Scholarship>, gs: seq<Grant>, trigger: Grant, id: nat, h: Grant)
    requires Named(ss, trigger.scholarship, "Residencia") && |ComedorEntries(ss)| == 1
    requires Blocks(ss, h, trigger.student)
    ensures ComedorCascade(ss, gs + [h], trigger, true, id) == Blocked
  {
    assert (gs + [h])[|gs|] == h;
  }

  /** A grant in any other state — VENCIDA, SUSPENDIDA, RECHAZADA — never
      changes whether the rule is blocked. */
  lemma OtherStatesDoNotBlock(ss: seq<Scholarship>, gs: seq<Grant>, student: Option<nat>, h: Grant)
    requires !Blocking(h.state)
    ensures AnyBlocks(ss, gs + [h], student) <==> AnyBlocks(ss, gs, student)
  {
    if AnyBlocks(ss, gs + [h], student) {
      var i :| 0 <= i < |gs + [h]| && Blocks(ss, (gs + [h])[i], student);
      assert i < |gs| && (gs + [h])[i] == gs[i];
    }
    if AnyBlocks(ss, gs, student) {
      var i :| 0 <= i < |gs| && Blocks(ss, gs[i], student);
      assert (gs + [h])[i] == gs[i];
    }
  }

  /** The registry's invariant: unique catalogue keys, unique grant keys
      under the `unique_together` constraint, grant keys increasing in
      store order and below the next key, and every grant and benefit
      naming a stored scholarship. */
  predicate RegistryValid(ss: seq<Scholarship>, gs: seq<Grant>, bs: seq<Benefit>, next: nat) {
    ScholarshipKeysUnique(ss) &&
    UniqueKeys(gs) &&
    (forall i, j :: 0 <= i < j < |gs| ==> gs[i].id < gs[j].id) &&
    (forall i :: 0 <= i < |gs| ==> gs[i].id < next) &&
    (forall i :: 0 <= i < |gs| ==> ScholarshipOf(ss, gs[i].scholarship).Some?) &&
    (forall i :: 0 <= i < |bs| ==> ScholarshipOf(ss, bs[i].scholarship).Some?)
  }

  /** Inserting a grant with a fresh key, a stored scholarship and an
      admissible key keeps the registry valid. */
  lemma InsertKeepsValid(ss: seq<Scholarship>, gs: seq<Grant>, bs: seq<Benefit>, next: nat, g: Grant)
    requires RegistryValid(ss, gs, bs, next)
    requires g.id >= next && Insertable(gs, g) && ScholarshipOf(ss, g.scholarship).Some?
    ensures RegistryValid(ss, gs + [g], bs, g.id + 1)
  {
    InsertKeepsUnique(gs, g);
  }

  /** Deleting a grant keeps the registry valid. */
  lemma RemoveKeepsValid(ss: seq<Scholarship>, gs: seq<Grant>, bs: seq<Benefit>, next: nat, k: nat)
    requires RegistryValid(ss, gs, bs, next) && k < |gs|
    ensures RegistryValid(ss, gs[..k] + gs[k + 1..], bs, next)
  {
    var r := gs[..k] + gs[k + 1..];
    assert forall i :: 0 <= i < |r| ==> r[i] == gs[if i < k then i else i + 1];
  }

  /** The cascade run on a valid registry inserts only what keeps it valid. */
  lemma CascadeKeepsValid(ss: seq<Scholarship>, gs: seq<Grant>, bs: seq<Benefit>, next: nat, trigger: Grant)
    requires RegistryValid(ss, gs, bs, next)
    ensures var o := ComedorCascade(ss, gs, trigger, true, next);
            RegistryValid(ss, gs + Added(o), bs, next + |Added(o)|)
  {
    var o := ComedorCascade(ss, gs, trigger, true, next);
    if o.Created? {
      CascadeCopiesTrigger(ss, gs, trigger, next);
      InsertKeepsValid(ss, gs, bs, next, o.grant);
    } else {
      assert gs + [] == gs;
    }
  }

  datatype AssignError =
    | ScholarshipNotFound
    | ScholarshipInactive
    | NotValidatedRegular
    | Rejected(error: GrantError)
    | CascadeFailed
    | CertificateRejected

  /** The grant `asignar_beca` builds: the student, the scholarship, both
      dates, the state, today as approval date for an approved state, and
      for a scholarship that pays an amount the entered amount or, when
      none was entered, the suggested one. */
  function AssignedGrant(student: Personas.Student, s: Scholarship, start: Calendar.Date, end: Calendar.Date,
                         state: GrantState, entered: Option<real>, today: Calendar.Date, id: nat): Grant {
    Grant(id, Some(student.id), None, s.id, Some(start), Some(end), state,
          if Approved(state) then Some(today) else None,
          if !s.hasAmount then None else if entered.Some? then entered else s.suggestedAmount)
  }

  /** The checks `asignar_beca` makes before saving: the scholarship exists
      and is active, a scholarship whose lower-cased name is `comedor` needs
      a student validated as regular, and the built grant passes
      `full_clean`. */
  function AssignCheck(ss: seq<Scholarship>, gs: seq<Grant>, student: Personas.Student, sid: nat,
                       start: Calendar.Date, end: Calendar.Date, state: GrantState, entered: Option<real>,
                       today: Calendar.Date, id: nat): Result<Grant, AssignError> {
    var s := ScholarshipOf(ss, sid);
    if s.None? then Err(ScholarshipNotFound)
    else if !s.value.active then Err(ScholarshipInactive)
    else if LowerEquals(s.value.name, "comedor") && !student.validatedRegular then Err(NotValidatedRegular)
    else
      var g := AssignedGrant(student, s.value, start, end, state, entered, today, id);
      var e := FullClean(gs, g, s.value);
      if e.Some? then Err(Rejected(e.value)) else Ok(g)
  }

  /** What an accepted assignment guarantees, and the refusals in order. */
  lemma AssignCheckRules(ss: seq<Scholarship>, gs: seq<Grant>, student: Personas.Student, sid: nat,
                         start: Calendar.Date, end: Calendar.Date, state: GrantState, entered: Option<real>,
                         today: Calendar.Date, id: nat)
    requires UniqueKeys(gs)
    ensures var r := AssignCheck(ss, gs, student, sid, start, end, state, entered, today, id);
            var s := ScholarshipOf(ss, sid);
            (s.None? ==> r == Err(ScholarshipNotFound)) &&
            (s.Some? && !s.value.active ==> r == Err(ScholarshipInactive)) &&
            (s.Some? && s.value.active && LowerEquals(s.value.name, "comedor") && !student.validatedRegular ==>
               r == Err(NotValidatedRegular)) &&
            (r.Ok? ==>
               s.Some? && s.value.active && (LowerEquals(s.value.name, "comedor") ==> student.validatedRegular) &&
               r.value.id == id && r.value.student == Some(student.id) && r.value.scholarship == sid &&
               r.value.start == Some(start) && r.value.end == Some(end) && Calendar.Before(start, end) &&
               r.value.state == state && (r.value.approvedOn.Some? <==> Approved(state)) &&
               (s.value.hasAmount && entered.None? ==> r.value.amount == s.value.suggestedAmount) &&
               (s.value.hasAmount <==> Truthy(r.value.amount)) &&
               UniqueKeys(gs + [r.value]))
  {
    var r := AssignCheck(ss, gs, student, sid, start, end, state, entered, today, id);
    if r.Ok? {
      var s := ScholarshipOf(ss, sid).value;
      FullCleanAccepts(gs, r.value, s);
      GrantCleanAccepts(r.value, s);
    }
  }

  /** The regular-student gate ignores case but compares the whole name:
      it applies to `Comedor` and `COMEDOR`, and not to the seeded
      `Beca Comedor`. */
  lemma ComedorGateNames()
    ensures LowerEquals("Comedor", "comedor") && LowerEquals("COMEDOR", "comedor")
    ensures !LowerEquals("Beca Comedor", "comedor")
  {
  }

  /** A valid scholarship that pays an amount fills a missing entry with
      its suggested amount, so the amount rule never refuses it. */
  lemma SuggestedAmountSatisfiesClean(student: Personas.Student, s: Scholarship, start: Calendar.Date,
                                      end: Calendar.Date, state: GrantState, today: Calendar.Date, id: nat)
    requires ScholarshipValid(s) && s.hasAmount
    ensures var g := AssignedGrant(student, s, start, end, state, None, today, id);
            GrantClean(g, s) != Some(AmountRequired) && GrantClean(g, s) != Some(AmountNotAllowed)
  {
  }

  /** What an assignment does: its result, the grants it leaves added to
      the store and how many keys it consumed. */
  datatype Assignment = Assignment(result: Result<nat, AssignError>, added: seq<Grant>, keysUsed: nat)

  /** The whole of `asignar_beca`: after the checks the grant is saved and
      the cascade, as written, runs; the exception it raises in place of
      an insert leaves the saved grant and is reported as an error; a
      refused celiac certificate (asked for on a scholarship that allows
      the cafeteria) deletes the saved grant. The cascade never adds a
      grant here (`AsWrittenNeverCreates`). */
  function AssignEffect(ss: seq<Scholarship>, gs: seq<Grant>, next: nat, student: Personas.Student, sid: nat,
                        start: Calendar.Date, end: Calendar.Date, state: GrantState, entered: Option<real>,
                        today: Calendar.Date, certificateRequested: bool, certificateAccepted: bool): Assignment {
    var check := AssignCheck(ss, gs, student, sid, start, end, state, entered, today, next);
    if check.Err? then Assignment(Err(check.error), [], 0)
    else
      var g := check.value;
      if ComedorCascadeAsWritten(ss, gs + [g], g, true, next + 1) == Crashed then Assignment(Err(CascadeFailed), [g], 1)
      else if ScholarshipOf(ss, sid).value.allowsCafeteria && certificateRequested && !certificateAccepted then
        Assignment(Err(CertificateRejected), [], 1)
      else Assignment(Ok(g.id), [g], 1)
  }

  /** Once the checks pass, the effect is decided by the cascade outcome
      and the certificate form, and the store gains at most the saved
      grant. */
  lemma AssignEffectAfterSave(ss: seq<Scholarship>, gs: seq<Grant>, next: nat, student: Personas.Student, sid: nat,
                              start: Calendar.Date, end: Calendar.Date, state: GrantState, entered: Option<real>,
                              today: Calendar.Date, certificateRequested: bool, certificateAccepted: bool,
                              g: Grant, o: CascadeOutcome)
    requires AssignCheck(ss, gs, student, sid, start, end, state, entered, today, next) == Ok(g)
    requires o == ComedorCascadeAsWritten(ss, gs + [g], g, true, next + 1)
    ensures ScholarshipOf(ss, sid).Some?
    ensures var refused := ScholarshipOf(ss, sid).value.allowsCafeteria && certificateRequested && !certificateAccepted;
            AssignEffect(ss, gs, next, student, sid, start, end, state, entered, today,
                         certificateRequested, certificateAccepted) ==
              if o == Crashed then Assignment(Err(CascadeFailed), [g], 1)
              else if refused then Assignment(Err(CertificateRejected), [], 1)
              else Assignment(Ok(g.id), [g], 1)
  {
  }

  /** Wherever the intended rule would add the `Comedor` grant, the
      assignment as written reports an error, keeps the saved grant and
      adds nothing else. */
  lemma AssignmentLosesCascadeGrant(ss: seq<Scholarship>, gs: seq<Grant>, next: nat, student: Personas.Student, sid: nat,
                                    start: Calendar.Date, end: Calendar.Date, state: GrantState, entered: Option<real>,
                                    today: Calendar.Date, certificateRequested: bool, certificateAccepted: bool, g: Grant)
    requires AssignCheck(ss, gs, student, sid, start, end, state, entered, today, next) == Ok(g)
    requires ComedorCascade(ss, gs + [g], g, true, next + 1).Created?
    ensures AssignEffect(ss, gs, next, student, sid, start, end, state, entered, today,
                         certificateRequested, certificateAccepted) == Assignment(Err(CascadeFailed), [g], 1)
  {
    AsWrittenNeverCreates(ss, gs + [g], g, true, next + 1);
  }

  datatype EditError = GrantNotFound | NoStudent | EditCollides

  /** The position of the grant with key `id`. */
  function GrantIndex(gs: seq<Grant>, id: nat): (r: Option<nat>)
    ensures r.Some? ==> r.value < |gs| && gs[r.value].id == id
    ensures r.None? ==> forall i :: 0 <= i < |gs| ==> gs[i].id != id
  {
    if gs == [] then None
    else if gs[|gs| - 1].id == id then Some(|gs| - 1)
    else GrantIndex(gs[..|gs| - 1], id)
  }

  /** `editar_beca`: new dates and state, with no validation; the approval
      date is stamped only for an approved state and only when absent. */
  function EditedGrant(g: Grant, start: Calendar.Date, end: Calendar.Date, state: GrantState,
                       today: Calendar.Date): Grant {
    g.(start := Some(start), end := Some(end), state := state,
       approvedOn := if Approved(state) && g.approvedOn.None? then Some(today) else g.approvedOn)
  }

  /** An approval date, once set, is kept; it is set by an edit exactly when
      it was absent and the new state is approved; nothing but the dates,
      the state and the approval date changes. */
  lemma EditedGrantRules(g: Grant, start: Calendar.Date, end: Calendar.Date, state: GrantState, today: Calendar.Date)
    ensures var e := EditedGrant(g, start, end, state, today);
            (g.approvedOn.Some? ==> e.approvedOn == g.approvedOn) &&
            (g.approvedOn.None? ==> (e.approvedOn.Some? <==> Approved(state)) && (Approved(state) ==> e.approvedOn == Some(today))) &&
            e.id == g.id && e.student == g.student && e.incoming == g.incoming &&
            e.scholarship == g.scholarship && e.amount == g.amount && e.state == state &&
            e.start == Some(start) && e.end == Some(end)
  {
  }

  /** Without `full_clean`, an edit stores an end date before the start
      date, which `clean` would refuse. */
  lemma EditSkipsDateOrder(g: Grant, s: Scholarship, today: Calendar.Date)
    requires !(g.student.Some? && g.incoming.Some?)
    ensures var e := EditedGrant(g, Calendar.Date(2025, 6, 1), Calendar.Date(2025, 3, 1), Activa, today);
            e.end.Some? && Calendar.Before(e.end.value, e.start.value) &&
            GrantClean(e, s) == Some(EndNotAfterStart)
  {
  }

  /** Grant `g` can take position `k` without sharing a key with another. */
  predicate InsertableExcept(gs: seq<Grant>, k: nat, g: Grant) {
    forall i :: 0 <= i < |gs| && i != k ==> !SameKey(gs[i], g) && !SameKey(g, gs[i])
  }

  /** Replacing a grant by one with the same key, scholarship and an
      admissible uniqueness key keeps the registry valid. */
  lemma ReplaceKeepsValid(ss: seq<Scholarship>, gs: seq<Grant>, bs: seq<Benefit>, next: nat, k: nat, e: Grant)
    requires RegistryValid(ss, gs, bs, next) && k < |gs|
    requires e.id == gs[k].id && e.scholarship == gs[k].scholarship && InsertableExcept(gs, k, e)
    ensures RegistryValid(ss, gs[k := e], bs, next)
  {
  }

  datatype DeleteError = ScholarshipMissing | ScholarshipInUse(grants: nat)

  /** How many grants name scholarship `sid`. */
  function GrantsUsing(gs: seq<Grant>, sid: nat): (n: nat)
    ensures n == 0 <==> forall i :: 0 <= i < |gs| ==> gs[i].scholarship != sid
  {
    if gs == [] then 0
    else
      var rest := GrantsUsing(gs[..|gs| - 1], sid);
      assert forall i :: 0 <= i < |gs| - 1 ==> gs[..|gs| - 1][i] == gs[i];
      rest + (if gs[|gs| - 1].scholarship == sid then 1 else 0)
  }

  function WithoutScholarship(ss: seq<Scholarship>, sid: nat): (r: seq<Scholarship>)
    ensures forall s :: s in r <==> s in ss && s.id != sid
  {
    if ss == [] then []
    else (if ss[0].id != sid then [ss[0]] else []) + WithoutScholarship(ss[1..], sid)
  }

  /** The benefits left once the benefits of scholarship `sid` are deleted
      with it. */
  function BenefitsWithout(bs: seq<Benefit>, sid: nat): (r: seq<Benefit>)
    ensures forall b :: b in r <==> b in bs && b.scholarship != sid
  {
    if bs == [] then []
    else (if bs[0].scholarship != sid then [bs[0]] else []) + BenefitsWithout(bs[1..], sid)
  }

  /** Removing entry `sid` leaves every other key finding the same entry. */
  lemma {:induction false} WithoutKeepsOthers(ss: seq<Scholarship>, sid: nat, k: nat)
    requires k != sid
    ensures ScholarshipOf(WithoutScholarship(ss, sid), k) == ScholarshipOf(ss, k)
  {
    if ss != [] {
      WithoutKeepsOthers(ss[1..], sid, k);
      if ss[0].id != sid {
        var r := WithoutScholarship(ss, sid);
        assert r[0] == ss[0] && r[1..] == WithoutScholarship(ss[1..], sid);
      } else {
        assert WithoutScholarship(ss, sid) == WithoutScholarship(ss[1..], sid);
      }
    }
  }

  lemma TailKeysUnique(ss: seq<Scholarship>)
    requires ScholarshipKeysUnique(ss) && ss != []
    ensures ScholarshipKeysUnique(ss[1..])
    ensures forall s :: s in ss[1..] ==> s.id != ss[0].id
  {
    var tail := ss[1..];
    forall s | s in tail
      ensures s.id != ss[0].id
    {
      var t :| 0 <= t < |tail| && tail[t] == s;
      assert ss[t + 1] == s;
    }
    forall i, j | 0 <= i < |tail| && 0 <= j < |tail| && i != j
      ensures tail[i].id != tail[j].id
    {
      assert tail[i] == ss[i + 1] && tail[j] == ss[j + 1];
    }
  }

  lemma ConsKeysUnique(x: Scholarship, rest: seq<Scholarship>)
    requires ScholarshipKeysUnique(rest)
    requires forall s :: s in rest ==> s.id != x.id
    ensures ScholarshipKeysUnique([x] + rest)
  {
    var r := [x] + rest;
    forall i, j | 0 <= i < |r| && 0 <= j < |r| && i != j
      ensures r[i].id != r[j].id
    {
      if i == 0 {
        assert r[j] == rest[j - 1] && r[j] in rest;
      } else if j == 0 {
        assert r[i] == rest[i - 1] && r[i] in rest;
      } else {
        assert r[i] == rest[i - 1] && r[j] == rest[j - 1];
      }
    }
  }

  lemma {:induction false} WithoutKeepsKeysUnique(ss: seq<Scholarship>, sid: nat)
    requires ScholarshipKeysUnique(ss)
    ensures ScholarshipKeysUnique(WithoutScholarship(ss, sid))
  {
    if ss != [] {
      TailKeysUnique(ss);
      WithoutKeepsKeysUnique(ss[1..], sid);
      var rest := WithoutScholarship(ss[1..], sid);
      if ss[0].id != sid {
        ConsKeysUnique(ss[0], rest);
        assert WithoutScholarship(ss, sid) == [ss[0]] + rest;
      } else {
        assert WithoutScholarship(ss, sid) == rest;
      }
    }
  }

  /** Deleting an unused catalogue entry, and the benefits attached to it,
      keeps the registry valid. */
  lemma DeleteKeepsValid(ss: seq<Scholarship>, gs: seq<Grant>, bs: seq<Benefit>, next: nat, sid: nat)
    requires RegistryValid(ss, gs, bs, next) && GrantsUsing(gs, sid) == 0
    ensures RegistryValid(WithoutScholarship(ss, sid), gs, BenefitsWithout(bs, sid), next)
  {
    WithoutKeepsKeysUnique(ss, sid);
    forall i | 0 <= i < |gs|
      ensures ScholarshipOf(WithoutScholarship(ss, sid), gs[i].scholarship).Some?
    {
      WithoutKeepsOthers(ss, sid, gs[i].scholarship);
    }
    var rest := BenefitsWithout(bs, sid);
    forall i | 0 <= i < |rest|
      ensures ScholarshipOf(WithoutScholarship(ss, sid), rest[i].scholarship).Some?
    {
      assert rest[i] in bs;
      var j :| 0 <= j < |bs| && bs[j] == rest[i];
      WithoutKeepsOthers(ss, sid, rest[i].scholarship);
    }
  }

  class Registry {
    var scholarships: seq<Scholarship>
    var grants: seq<Grant>
    var benefits: seq<Benefit>
    var nextGrantId: nat

    ghost predicate Valid()
      reads this
    {
      RegistryValid(scholarships, grants, benefits, nextGrantId)
    }

    constructor (catalogue: seq<Scholarship>, attached: seq<Benefit>)
      requires RegistryValid(catalogue, [], attached, 1)
      ensures Valid()
      ensures scholarships == catalogue && benefits == attached && grants == [] && nextGrantId == 1
    {
      scholarships := catalogue;
      benefits := attached;
      grants := [];
      nextGrantId := 1;
    }

    /** The `post_save` handler, as written, run after grant `trigger` is
      saved: it changes nothing, and where the intended rule would insert
      the `Comedor` grant it raises instead. */
    method RunCascade(trigger: Grant, created: bool) returns (o: CascadeOutcome)
      ensures o == ComedorCascadeAsWritten(scholarships, grants, trigger, created, nextGrantId)
      ensures ComedorCascade(scholarships, grants, trigger, created, nextGrantId).Created? ==> o == Crashed
    {
      AsWrittenNeverCreates(scholarships, grants, trigger, created, nextGrantId);
      if !created || !Named(scholarships, trigger.scholarship, "Residencia") {
        return NoTrigger;
      }
      var entries := ComedorEntries(scholarships);
      if |entries| == 0 {
        return NoCatalogueEntry;
      }
      if |entries| > 1 {
        return Crashed;
      }
      if AnyBlocks(scholarships, grants, trigger.student) {
        return Blocked;
      }
      o := Crashed;
    }

    /** `PersonaBeca.save` of a new grant: the insert, then the `post_save`
      handler with `created` set. */
    method SaveNewGrant(g: Grant) returns (o: CascadeOutcome)
      requires Valid()
      requires g.id == nextGrantId && Insertable(grants, g) && ScholarshipOf(scholarships, g.scholarship).Some?
      modifies this
      ensures Valid()
      ensures o == ComedorCascadeAsWritten(old(scholarships), old(grants) + [g], g, true, old(nextGrantId) + 1)
      ensures grants == old(grants) + [g] && nextGrantId == old(nextGrantId) + 1
      ensures scholarships == old(scholarships) && benefits == old(benefits)
    {
      InsertKeepsValid(scholarships, grants, benefits, nextGrantId, g);
      grants := grants + [g];
      nextGrantId := nextGrantId + 1;
      o := RunCascade(g, true);
    }

    /** `asignar_beca` on a POST: check, save the grant (firing the
      cascade), then, for a scholarship that allows the cafeteria and a
      requested celiac certificate, a refused certificate form deletes the
      grant just saved. An exception raised by the cascade leaves the saved
      grant in place. */
    method AssignGrant(student: Personas.Student, sid: nat, start: Calendar.Date, end: Calendar.Date,
                       state: GrantState, entered: Option<real>, today: Calendar.Date,
                       certificateRequested: bool, certificateAccepted: bool)
      returns (r: Result<nat, AssignError>)
      requires Valid()
      modifies this
      ensures Valid()
      ensures scholarships == old(scholarships) && benefits == old(benefits)
      ensures var effect := AssignEffect(old(scholarships), old(grants), old(nextGrantId), student, sid, start, end,
                                         state, entered, today, certificateRequested, certificateAccepted);
              r == effect.result && grants == old(grants) + effect.added &&
              nextGrantId == old(nextGrantId) + effect.keysUsed
    {
      var ss, gs, next := scholarships, grants, nextGrantId;
      var check := AssignCheck(ss, gs, student, sid, start, end, state, entered, today, next);
      if check.Err? {
        assert gs == gs + [];
        return Err(check.error);
      }
      var g := check.value;
      var s := ScholarshipOf(ss, sid).value;
      assert Insertable(gs, g) && g.scholarship == s.id;
      var o;
      r, o := SaveAssignment(g, s.allowsCafeteria && certificateRequested && !certificateAccepted);
      AssignEffectAfterSave(ss, gs, next, student, sid, start, end, state, entered,
                            today, certificateRequested, certificateAccepted, g, o);
      assert gs == gs + [];
    }

    /** The part of `asignar_beca` after `full_clean`: save the grant (the
      cascade runs), then delete it again if the celiac certificate form
      was required and refused. */
    method SaveAssignment(g: Grant, refused: bool) returns (r: Result<nat, AssignError>, o: CascadeOutcome)
      requires Valid()
      requires g.id == nextGrantId && Insertable(grants, g) && ScholarshipOf(scholarships, g.scholarship).Some?
      modifies this
      ensures Valid()
      ensures scholarships == old(scholarships) && benefits == old(benefits)
      ensures o == ComedorCascadeAsWritten(old(scholarships), old(grants) + [g], g, true, old(nextGrantId) + 1)
      ensures nextGrantId == old(nextGrantId) + 1
      ensures o == Crashed ==> r == Err(CascadeFailed) && grants == old(grants) + [g]
      ensures o != Crashed && refused ==> r == Err(CertificateRejected) && grants == old(grants)
      ensures o != Crashed && !refused ==> r == Ok(g.id) && grants == old(grants) + [g]
    {
      var stored := |grants|;
      o := SaveNewGrant(g);
      if o == Crashed {
        return Err(CascadeFailed), o;
      }
      if refused {
        RemoveKeepsValid(scholarships, grants, benefits, nextGrantId, stored);
        assert grants[..stored] + grants[stored + 1..] == old(grants);
        grants := grants[..stored] + grants[stored + 1..];
        return Err(CertificateRejected), o;
      }
      r := Ok(g.id);
    }

    /** `editar_beca` on a POST: a grant that names no student fails when
      the view reads the student's person, before anything changes;
      otherwise the grant takes the new dates and state and is saved
      without validation, and only the database's uniqueness constraint can
      refuse it. */
    method EditGrant(id: nat, start: Calendar.Date, end: Calendar.Date, state: GrantState, today: Calendar.Date)
      returns (r: Result<nat, EditError>)
      requires Valid()
      modifies this
      ensures Valid()
      ensures scholarships == old(scholarships) && benefits == old(benefits) && nextGrantId == old(nextGrantId)
      ensures var k := GrantIndex(old(grants), id);
              (k.None? ==> r == Err(GrantNotFound) && grants == old(grants)) &&
              (k.Some? && old(grants)[k.value].student.None? ==> r == Err(NoStudent) && grants == old(grants)) &&
              (k.Some? && old(grants)[k.value].student.Some? ==>
                 var e := EditedGrant(old(grants)[k.value], start, end, state, today);
                 (!InsertableExcept(old(grants), k.value, e) ==> r == Err(EditCollides) && grants == old(grants)) &&
                 (InsertableExcept(old(grants), k.value, e) ==> r == Ok(id) && grants == old(grants)[k.value := e]))
    {
      var k := GrantIndex(grants, id);
      if k.None? {
        return Err(GrantNotFound);
      }
      if grants[k.value].student.None? {
        return Err(NoStudent);
      }
      var e := EditedGrant(grants[k.value], start, end, state, today);
      if !InsertableExcept(grants, k.value, e) {
        return Err(EditCollides);
      }
      ReplaceKeepsValid(scholarships, grants, benefits, nextGrantId, k.value, e);
      grants := grants[k.value := e];
      r := Ok(id);
    }

    /** `eliminar_beca_catalogo` on a POST: refused while any grant names the
      scholarship; otherwise the entry is deleted together with its
      benefits. */
    method DeleteScholarship(sid: nat) returns (r: Result<nat, DeleteError>)
      requires Valid()
      modifies this
      ensures Valid()
      ensures grants == old(grants) && nextGrantId == old(nextGrantId)
      ensures ScholarshipOf(old(scholarships), sid).None? ==>
                r == Err(ScholarshipMissing) && scholarships == old(scholarships) && benefits == old(benefits)
      ensures ScholarshipOf(old(scholarships), sid).Some? && GrantsUsing(old(grants), sid) > 0 ==>
                r == Err(ScholarshipInUse(GrantsUsing(old(grants), sid))) &&
                scholarships == old(scholarships) && benefits == old(benefits)
      ensures ScholarshipOf(old(scholarships), sid).Some? && GrantsUsing(old(grants), sid) == 0 ==>
                r == Ok(sid) && scholarships == WithoutScholarship(old(scholarships), sid) &&
                benefits == BenefitsWithout(old(benefits), sid)
    {
      if ScholarshipOf(scholarships, sid).None? {
        return Err(ScholarshipMissing);
      }
      var using := GrantsUsing(grants, sid);
      if using > 0 {
        return Err(ScholarshipInUse(using));
      }
      DeleteKeepsValid(scholarships, grants, benefits, nextGrantId, sid);
      scholarships := WithoutScholarship(scholarships, sid);
      benefits := BenefitsWithout(benefits, sid);
      r := Ok(sid);
    }
  }
}
