/**
  * The account rules around a person's profile: the once-a-year limit on
  * changing the menu preference, where a signed-in user is sent before a
  * profile exists or is complete, the role chosen at sign-up and when it
  * locks, and what the profile forms do when they are built and cleaned.
  */
module Accounts {
  import opened Wrappers
  import opened Text
  import opened Personas
  import Menus
  import Calendar

  // ---------------------------------------------------------------------
  // The menu-preference rate limit

  /** The outcome of the one-year check: the change may go ahead, it must
      wait the given number of days, or computing the limit date fails
      because it would fall past year 9999. */
  datatype MenuGate = MayChange | WaitDays(days: int) | LimitOverflow

  /** The one-year check of `cambiar_preferencia_menu`: allowed when no
      change was ever recorded, otherwise once today reaches the same day
      one calendar year after the last change. */
  function MenuChangeGate(last: Option<Calendar.Date>, today: Calendar.Date): (r: MenuGate)
    requires Calendar.Valid(today)
    requires last.Some? ==> Calendar.Valid(last.value)
    ensures last.None? ==> r == MayChange
    ensures r == LimitOverflow <==> last.Some? && last.value.year >= 9999
    ensures last.Some? && last.value.year < 9999 ==>
              var limit := Calendar.AddOneYear(last.value).value;
              (r == MayChange <==> Calendar.AtOrBefore(limit, today)) &&
              (r.WaitDays? ==> r.days == Calendar.DaysBetween(today, limit))
    ensures r.WaitDays? ==> r.days >= 1
  {
    if last.None? then MayChange
    else match Calendar.AddOneYear(last.value)
      case None => LimitOverflow
      case Some(limit) =>
        if Calendar.Before(today, limit) then
          Calendar.BeforeIffSmallerOrdinal(today, limit);
          WaitDays(Calendar.DaysBetween(today, limit))
        else MayChange
  }

  /** Once a change is allowed it stays allowed on every later day. */
  lemma MenuGateStaysOpen(last: Option<Calendar.Date>, day1: Calendar.Date, day2: Calendar.Date)
    requires Calendar.Valid(day1) && Calendar.Valid(day2) && Calendar.AtOrBefore(day1, day2)
    requires last.Some? ==> Calendar.Valid(last.value)
    requires MenuChangeGate(last, day1) == MayChange
    ensures MenuChangeGate(last, day2) == MayChange
  {
    if last.Some? {
      var limit := Calendar.AddOneYear(last.value).value;
      Calendar.AtOrBeforeIffOrdinal(limit, day1);
      Calendar.AtOrBeforeIffOrdinal(day1, day2);
      Calendar.AtOrBeforeIffOrdinal(limit, day2);
    }
  }

  /** While a change is refused, each day that passes takes one day off the
      wait, and the day the wait reaches zero the change is allowed. */
  lemma WaitCountsDown(last: Calendar.Date, today: Calendar.Date)
    requires Calendar.Valid(last) && Calendar.Valid(today) && today != Calendar.Last
    requires MenuChangeGate(Some(last), today).WaitDays?
    ensures var next := Calendar.NextDay(today);
            var d := MenuChangeGate(Some(last), today).days;
            if d == 1 then MenuChangeGate(Some(last), next) == MayChange
            else MenuChangeGate(Some(last), next) == WaitDays(d - 1)
  {
    var limit := Calendar.AddOneYear(last).value;
    var next := Calendar.NextDay(today);
    Calendar.BeforeIffSmallerOrdinal(next, limit);
    Calendar.AtOrBeforeIffOrdinal(limit, next);
  }

  /** The limit is a calendar year, not 365 days: a change made on 1 March
      2023 is still refused on 29 February 2024, 365 days later, with one
      day to wait; and a change on 29 February 2024 is allowed again on 28
      February 2025, because the anniversary is clamped to the month. */
  lemma CalendarYearNotDays()
    ensures Calendar.DaysBetween(Calendar.Date(2023, 3, 1), Calendar.Date(2024, 2, 29)) == 365
    ensures MenuChangeGate(Some(Calendar.Date(2023, 3, 1)), Calendar.Date(2024, 2, 29)) == WaitDays(1)
    ensures MenuChangeGate(Some(Calendar.Date(2024, 2, 29)), Calendar.Date(2025, 2, 28)) == MayChange
    ensures MenuChangeGate(Some(Calendar.Date(2024, 2, 29)), Calendar.Date(2025, 2, 27)) == WaitDays(1)
  {
  }

  /** What `ver_perfil` renders: the profile with its can-change flag, a
      redirect home when the role's profile row is missing, or a failure
      when the limit date cannot be computed. */
  datatype ProfilePage = Shown(canChangeMenu: bool) | MissingProfileRow | PageFailed

  /** `ver_perfil`. `hasProfileRow` says whether the role-specific row
      (student, teacher, staff) exists; `last` is the student's last change. */
  function ViewProfile(rol: string, hasProfileRow: bool, last: Option<Calendar.Date>, today: Calendar.Date): ProfilePage
    requires Calendar.Valid(today)
    requires last.Some? ==> Calendar.Valid(last.value)
  {
    if rol == "estudiante" then
      if !hasProfileRow then MissingProfileRow
      else if last.None? then Shown(true)
      else match Calendar.AddOneYear(last.value)
        case None => PageFailed
        case Some(limit) => Shown(Calendar.AtOrBefore(limit, today))
    else if (rol == "docente" || rol == "no_docente") && !hasProfileRow then MissingProfileRow
    else Shown(false)
  }

  /** The flag on the profile page is the change gate itself: for a
      student it is set exactly when a change would be allowed, and it
      is never set for any other role. */
  lemma ProfileFlagIsGate(rol: string, last: Option<Calendar.Date>, today: Calendar.Date)
    requires Calendar.Valid(today)
    requires last.Some? ==> Calendar.Valid(last.value)
    ensures rol == "estudiante" ==>
              (ViewProfile(rol, true, last, today) == Shown(true) <==> MenuChangeGate(last, today) == MayChange) &&
              (ViewProfile(rol, true, last, today) == Shown(false) <==> MenuChangeGate(last, today).WaitDays?) &&
              (ViewProfile(rol, true, last, today) == PageFailed <==> MenuChangeGate(last, today) == LimitOverflow)
    ensures rol != "estudiante" ==> ViewProfile(rol, true, last, today) == Shown(false)
  {
  }

  // ---------------------------------------------------------------------
  // Routing a signed-in user

  /** Where `perfil_completo_requerido` sends a request. */
  datatype Route = ToLogin | RunView | ToSelectRole | ToCompleteProfile

  /** `perfil_completo_requerido`; `persona` is the user's person, absent
      when none is linked. */
  function ProfileRequired(authenticated: bool, staff: bool, persona: Option<Persona>): Route {
    if !authenticated then ToLogin
    else if staff then RunView
    else if persona.None? then ToSelectRole
    else if persona.value.rol == "" then ToSelectRole
    else if StartsWith(persona.value.documento, TempPrefix) then ToCompleteProfile
    else RunView
  }

  /** The gate admits a signed-in user exactly when they are staff or their
      person has a role and a complete profile; a missing role is reported
      before an incomplete document. */
  lemma ProfileRequiredOrder(authenticated: bool, staff: bool, persona: Option<Persona>)
    ensures ProfileRequired(authenticated, staff, persona) == RunView <==>
              authenticated && (staff || (persona.Some? && persona.value.rol != "" && ProfileComplete(persona.value)))
    ensures authenticated && !staff && persona.Some? && persona.value.rol == "" ==>
              ProfileRequired(authenticated, staff, persona) == ToSelectRole
    ensures ProfileRequired(authenticated, staff, persona) == ToCompleteProfile <==>
              authenticated && !staff && persona.Some? && persona.value.rol != "" && !ProfileComplete(persona.value)
  {
  }

  /** What `home` renders or where it redirects. */
  datatype HomePage = Landing | StaffHome | HomeToSelectRole | HomeToCompleteProfile

  function Home(authenticated: bool, staff: bool, persona: Option<Persona>): HomePage {
    if !authenticated then Landing
    else if staff then StaffHome
    else if persona.None? then HomeToSelectRole
    else if persona.value.rol == "" then HomeToSelectRole
    else if StartsWith(persona.value.documento, TempPrefix) then HomeToCompleteProfile
    else Landing
  }

  /** For a signed-in user the home page makes the same decision as the
      profile gate: it redirects where the gate redirects, and shows the
      landing page (or the staff home) where the gate runs the view. */
  lemma HomeAgreesWithGate(staff: bool, persona: Option<Persona>)
    ensures Home(true, staff, persona) ==
              match ProfileRequired(true, staff, persona)
              case ToLogin => Landing
              case RunView => if staff then StaffHome else Landing
              case ToSelectRole => HomeToSelectRole
              case ToCompleteProfile => HomeToCompleteProfile
  {
  }

  // ---------------------------------------------------------------------
  // Choosing a role

  /** The choices of `RolSelectionForm`. */
  const SelfSelectableRoles: seq<string> := ["ingresante", "estudiante", "egresado", "docente", "no_docente"]

  predicate RoleChoice(r: string) {
    r in SelfSelectableRoles
  }

  /** A person whose role is set and whose document is no longer the
      placeholder can no longer choose a role. */
  predicate RoleLocked(p: Persona) {
    p.rol != "" && !StartsWith(p.documento, TempPrefix)
  }

  /** The administrative roles cannot be chosen by the user. */
  lemma AdminRolesNotSelectable()
    ensures !RoleChoice("admin") && !RoleChoice("admin_comedor") && !RoleChoice("auditor")
    ensures RoleChoice("estudiante") && RoleChoice("no_docente")
  {
  }

  datatype RoleError = NoPersona | RoleIsLocked | InvalidRole

  /** A submitted role choice in `seleccionar_rol`: refused without a
      person and once the role is locked, refused when it is not one of the
      choices, otherwise the chosen role replaces whatever was there. */
  function ChooseRole(p: Option<Persona>, choice: string): (r: Result<Persona, RoleError>)
    ensures r.Ok? <==> p.Some? && !RoleLocked(p.value) && RoleChoice(choice)
    ensures r.Ok? ==> r.value == p.value.(rol := choice)
  {
    if p.None? then Err(NoPersona)
    else if RoleLocked(p.value) then Err(RoleIsLocked)
    else if !RoleChoice(choice) then Err(InvalidRole)
    else Ok(p.value.(rol := choice))
  }

  /** Before the profile is complete a role can be chosen again, and a
      fresh choice sends the user on to complete their profile; once it is
      complete the role is fixed. */
  lemma RoleLockAfterCompletion(p: Persona, choice: string)
    requires RoleChoice(choice)
    ensures ProfileComplete(p) && p.rol != "" ==> ChooseRole(Some(p), choice) == Err(RoleIsLocked)
    ensures !ProfileComplete(p) ==> ChooseRole(Some(p), choice) == Ok(p.(rol := choice))
    ensures !ProfileComplete(p) ==> ProfileRequired(true, false, Some(p.(rol := choice))) == ToCompleteProfile
  {
    assert choice != "" by {
      var i :| 0 <= i < |SelfSelectableRoles| && SelfSelectableRoles[i] == choice;
    }
  }

  // ---------------------------------------------------------------------
  // The profile forms

  /** The document pre-filled in the base profile form: the stored one,
      except that a placeholder document is blanked. `instance` is the
      saved person being edited, absent for a new one. */
  function DocumentInitial(instance: Option<Persona>): string {
    if instance.None? then ""
    else if StartsWith(instance.value.documento, TempPrefix) then ""
    else instance.value.documento
  }

  /** A placeholder document is never shown to the user, and any other
      document of a saved person is shown as stored. */
  lemma TempBlanking(p: Persona, userId: nat)
    ensures DocumentInitial(Some(p.(documento := TempDocument(userId)))) == ""
    ensures ProfileComplete(p) ==> DocumentInitial(Some(p)) == p.documento
    ensures !ProfileComplete(p) ==> DocumentInitial(Some(p)) == ""
  {
  }

  /** `PersonaBaseForm` after `__init__`: the declared initial value of each
      field and the form-level initial values, of which the latter win
      when the form is shown. */
  class PersonaBaseForm {
    var fieldInitial: map<string, string>
    var formInitial: map<string, string>

    /** The value the form shows first for `field`. */
    function Shown(field: string): string
      reads this
    {
      if field in formInitial then formInitial[field]
      else if field in fieldInitial then fieldInitial[field]
      else ""
    }

    /** Built for `instance` (the saved person, absent for a new one) and the
        user's e-mail: the form starts from the instance's document, takes
        the e-mail as the initial of its read-only field, and blanks a
        placeholder document. */
    constructor (instance: Option<Persona>, userEmail: Option<string>)
      ensures Shown("documento") == DocumentInitial(instance)
      ensures userEmail.Some? && userEmail.value != "" ==> Shown("email") == userEmail.value
    {
      fieldInitial := map[];
      formInitial := if instance.Some? then map["documento" := instance.value.documento] else map[];
      new;
      if userEmail.Some? && userEmail.value != "" {
        fieldInitial := fieldInitial["email" := userEmail.value];
      }
      if instance.Some? && StartsWith(instance.value.documento, TempPrefix) {
        fieldInitial := fieldInitial["documento" := ""];
        formInitial := formInitial["documento" := ""];
      }
    }
  }

  /** The four document fields `EstudiantePerfilForm.__init__` makes optional. */
  const OptionalDocuments: set<string> :=
    {"certificado_regular", "fecha_vencimiento_certificado", "carta_aceptacion", "fecha_vencimiento_carta"}

  /** `EstudiantePerfilForm` after `__init__`: which fields are required. */
  class StudentProfileForm {
    var required: map<string, bool>

    /** Built from the fields' declared `required` flags: the four document
        fields become optional and every other flag is kept. */
    constructor (declared: map<string, bool>)
      ensures forall f :: f in OptionalDocuments ==> f in required && !required[f]
      ensures forall f :: f !in OptionalDocuments && f in declared ==> f in required && required[f] == declared[f]
      ensures required.Keys == declared.Keys + OptionalDocuments
    {
      required := declared;
      new;
      required := required["certificado_regular" := false];
      required := required["fecha_vencimiento_certificado" := false];
      required := required["carta_aceptacion" := false];
      required := required["fecha_vencimiento_carta" := false];
    }
  }

  /** `EstudiantePerfilForm.clean`: whether it adds the missing-declaration
      error. `existing` says whether the form edits a saved student. */
  predicate StudentFormDdjjError(preference: string, ddjjUploaded: bool, existing: bool) {
    preference != "" && CeliacInPreference(preference) && !ddjjUploaded && !existing
  }

  /** The form's own check only guards new profiles: a saved student is
      never stopped by it, and a new one choosing a celiac menu without an
      upload always is. */
  lemma StudentFormNewOnly(preference: string, ddjjUploaded: bool)
    ensures !StudentFormDdjjError(preference, ddjjUploaded, true)
    ensures StudentFormDdjjError(preference, ddjjUploaded, false) <==> CeliacInPreference(preference) && !ddjjUploaded
  {
    if preference == "" {
      assert Lower(preference) == "";
      assert !Contains(Lower(preference), "celiaco");
    }
  }

  /** A new profile that picks the common celiac menu without uploading
      the declaration is stopped by the form. */
  lemma CeliacChoiceNeedsUpload()
    ensures StudentFormDdjjError(Menus.CeliacCommon, false, false)
  {
    assert Menus.CeliacCommon[..7] == "celiaco";
    Personas.CeliacPrefixIsCeliac(Menus.CeliacCommon);
  }
}
