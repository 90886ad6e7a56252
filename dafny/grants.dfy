/**
  * Scholarships (`Beca`) and scholarship grants (`PersonaBeca`): the
  * validation rules of both records, the uniqueness constraint on grants,
  * and the two amount helpers.
  */
module Grants {
  import opened Wrappers
  import Calendar

  /** A catalogue scholarship: its name (`tipo`), whether it is active,
      whether it pays an amount and the suggested amount. */
  datatype Scholarship = Scholarship(
    id: nat,
    name: string,
    active: bool,
    hasAmount: bool,
    suggestedAmount: Option<real>,
    allowsCafeteria: bool)

  datatype GrantState = Pendiente | Aprobada | Activa | Vencida | Suspendida | Rechazada

  /** A grant: at most one of a student and an incoming student (both
      optional in the schema), the scholarship, an optional date range, the
      state, the approval date and the assigned amount. */
  datatype Grant = Grant(
    id: nat,
    student: Option<nat>,
    incoming: Option<nat>,
    scholarship: nat,
    start: Option<Calendar.Date>,
    end: Option<Calendar.Date>,
    state: GrantState,
    approvedOn: Option<Calendar.Date>,
    amount: Option<real>)

  /** Python truthiness of an optional decimal: present and non-zero. */
  predicate Truthy(x: Option<real>) {
    x.Some? && x.value != 0.0
  }

  /** The states in which the approval date is stamped. */
  predicate Approved(s: GrantState) {
    s == Aprobada || s == Activa
  }

  /** `Beca.clean`: a scholarship that pays an amount needs a truthy
      suggested amount. */
  predicate ScholarshipValid(s: Scholarship) {
    !(s.hasAmount && !Truthy(s.suggestedAmount))
  }

  lemma ScholarshipValidAmounts(s: Scholarship)
    ensures ScholarshipValid(s) && s.hasAmount ==> s.suggestedAmount.Some? && s.suggestedAmount.value != 0.0
    ensures !s.hasAmount ==> ScholarshipValid(s)
    ensures s.hasAmount && s.suggestedAmount == Some(0.0) ==> !ScholarshipValid(s)
  {
  }

  datatype GrantError =
    | EndNotAfterStart
    | TwoGrantees
    | AmountRequired
    | AmountNotAllowed
    | NegativeAmount
    | DuplicateGrant

  /** `PersonaBeca.clean` against the grant's scholarship `s`; the first
      failing rule is the one reported. */
  function GrantClean(g: Grant, s: Scholarship): Option<GrantError> {
    if g.end.Some? && g.start.Some? && Calendar.AtOrBefore(g.end.value, g.start.value) then Some(EndNotAfterStart)
    else if g.student.Some? && g.incoming.Some? then Some(TwoGrantees)
    else if s.hasAmount && !Truthy(g.amount) then Some(AmountRequired)
    else if !s.hasAmount && Truthy(g.amount) then Some(AmountNotAllowed)
    else None
  }

  /** A grant passes `clean` exactly when its dates, if both present, are in
      strictly increasing order, it names at most one grantee, and it has a
      truthy amount exactly when the scholarship pays one. */
  lemma GrantCleanAccepts(g: Grant, s: Scholarship)
    ensures GrantClean(g, s) == None <==>
              (g.start.Some? && g.end.Some? ==> Calendar.Before(g.start.value, g.end.value)) &&
              !(g.student.Some? && g.incoming.Some?) &&
              (s.hasAmount <==> Truthy(g.amount))
  {
  }

  /** A missing date skips the date check, and an amount of zero counts as
      missing. */
  lemma GrantCleanEdgeCases(g: Grant, s: Scholarship)
    requires !(g.student.Some? && g.incoming.Some?)
    ensures g.start.None? && s.hasAmount == Truthy(g.amount) ==> GrantClean(g, s) == None
    ensures g.end.None? && s.hasAmount == Truthy(g.amount) ==> GrantClean(g, s) == None
    ensures s.hasAmount && g.amount == Some(0.0) && (g.start.None? || g.end.None?) ==>
              GrantClean(g, s) == Some(AmountRequired)
  {
  }

  /** The `unique_together` key (student, scholarship, start) as the
      database enforces it: a key holding a NULL never collides. */
  predicate SameKey(a: Grant, b: Grant) {
    a.student.Some? && a.start.Some? && a.student == b.student &&
    a.scholarship == b.scholarship && a.start == b.start
  }

  /** No two stored grants share a key. */
  predicate UniqueKeys(gs: seq<Grant>) {
    forall i, j :: 0 <= i < |gs| && 0 <= j < |gs| && i != j ==> !SameKey(gs[i], gs[j])
  }

  /** Grant `g` can be stored beside `gs`. */
  predicate Insertable(gs: seq<Grant>, g: Grant) {
    forall i :: 0 <= i < |gs| ==> !SameKey(gs[i], g) && !SameKey(g, gs[i])
  }

  lemma SameKeySymmetric(a: Grant, b: Grant)
    ensures SameKey(a, b) <==> SameKey(b, a)
  {
  }

  /** Inserting a grant the constraint admits keeps the keys unique. */
  lemma InsertKeepsUnique(gs: seq<Grant>, g: Grant)
    requires UniqueKeys(gs) && Insertable(gs, g)
    ensures UniqueKeys(gs + [g])
  {
    var r := gs + [g];
    forall i, j | 0 <= i < |r| && 0 <= j < |r| && i != j
      ensures !SameKey(r[i], r[j])
    {
      if i < |gs| && j < |gs| {
        assert r[i] == gs[i] && r[j] == gs[j];
      }
    }
  }

  /** Grants without a start date escape the constraint: the same student
      can hold the same scholarship twice. */
  lemma NullStartNotUnique(g: Grant)
    requires g.start.None?
    ensures UniqueKeys([g, g.(id := g.id + 1)])
  {
  }

  /** `PersonaBeca.full_clean` against the stored grants `gs`: the field
      validator on the amount, then `clean`, then the uniqueness check. */
  function FullClean(gs: seq<Grant>, g: Grant, s: Scholarship): Option<GrantError> {
    if g.amount.Some? && g.amount.value < 0.0 then Some(NegativeAmount)
    else if GrantClean(g, s).Some? then GrantClean(g, s)
    else if !Insertable(gs, g) then Some(DuplicateGrant)
    else None
  }

  /** A grant passes `full_clean` exactly when its amount is not negative,
      it passes `clean` and no stored grant shares its key; it can then be
      stored without breaking the uniqueness of keys. */
  lemma FullCleanAccepts(gs: seq<Grant>, g: Grant, s: Scholarship)
    requires UniqueKeys(gs)
    ensures FullClean(gs, g, s) == None <==>
              (g.amount.Some? ==> g.amount.value >= 0.0) && GrantClean(g, s) == None && Insertable(gs, g)
    ensures FullClean(gs, g, s) == None ==> UniqueKeys(gs + [g])
  {
    if FullClean(gs, g, s) == None {
      InsertKeepsUnique(gs, g);
    }
  }

  /** `monto_a_pagar`. */
  function AmountToPay(g: Grant): (r: real)
    ensures Truthy(g.amount) ==> r == g.amount.value
    ensures !Truthy(g.amount) ==> r == 0.0
  {
    if Truthy(g.amount) then g.amount.value else 0.0
  }

  /** The amount to pay is never negative when the stored amount respects
      its `MinValueValidator(0)`. */
  lemma AmountToPayNonNegative(g: Grant)
    requires g.amount.Some? ==> g.amount.value >= 0.0
    ensures AmountToPay(g) >= 0.0
  {
  }

  /** `difiere_monto_sugerido`. */
  predicate DiffersFromSuggested(g: Grant, s: Scholarship) {
    Truthy(s.suggestedAmount) && Truthy(g.amount) && g.amount.value != s.suggestedAmount.value
  }

  /** The amounts differ only when both are set, and then the amount to pay
      is not the suggested one. */
  lemma DiffersMeansBothSet(g: Grant, s: Scholarship)
    ensures DiffersFromSuggested(g, s) ==>
              g.amount.Some? && s.suggestedAmount.Some? && AmountToPay(g) != s.suggestedAmount.value
    ensures !Truthy(g.amount) || !Truthy(s.suggestedAmount) ==> !DiffersFromSuggested(g, s)
  {
  }
}
