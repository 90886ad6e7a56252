/**
  * The people store: user profiles, persons, student rows and the
  * observations written about persons, together with the operations that
  * change them — the sign-up handlers, choosing a role, a student's
  * yearly menu change, the administrator's save of a student row and the
  * change log of an administrator's edit.
  */
module Directory {
  import opened Wrappers
  import opened Text
  import opened Personas
  import Accounts
  import Changelog
  import Menus
  import Calendar

  /** A user account: the fields the sign-up handlers copy. */
  datatype User = User(id: nat, email: string, firstName: string, lastName: string)

  /** The user credited with a change: `fullName` is what `get_full_name`
      returns. */
  datatype Actor = Actor(id: nat, fullName: string, username: string)

  /** An observation row. Notes written by the admin screens carry no
      description and no data, and the default action 'observacion'. */
  datatype Observation = Observation(
    persona: nat,
    text: string,
    author: Option<nat>,
    description: Option<string>,
    action: string,
    data: Option<seq<Changelog.Entry>>)

  /** The person `create_persona_for_user` makes for a new user. */
  function NewPersona(u: User, id: nat): (p: Persona)
    ensures p.user == Some(u.id) && p.rol == "" && !ProfileComplete(p)
    ensures p.nombre == u.firstName && p.apellido == u.lastName && p.correo == u.email
  {
    Persona(id, Some(u.id), u.firstName, None, false, u.lastName, TempDocument(u.id), "", u.email, "")
  }

  /** A new user is first sent to choose a role, is then asked to complete
      the profile, and never sees the placeholder document in the form. */
  lemma SignUpJourney(u: User, id: nat, choice: string)
    requires Accounts.RoleChoice(choice)
    ensures Accounts.ProfileRequired(true, false, Some(NewPersona(u, id))) == Accounts.ToSelectRole
    ensures Accounts.ChooseRole(Some(NewPersona(u, id)), choice) == Ok(NewPersona(u, id).(rol := choice))
    ensures Accounts.ProfileRequired(true, false, Some(NewPersona(u, id).(rol := choice))) == Accounts.ToCompleteProfile
    ensures Accounts.DocumentInitial(Some(NewPersona(u, id))) == ""
  {
    Accounts.RoleLockAfterCompletion(NewPersona(u, id), choice);
  }

  /** The position of the person linked to user `userId`. */
  function PersonaOfUser(ps: seq<Persona>, userId: nat): (r: Option<nat>)
    ensures r.Some? ==> r.value < |ps| && ps[r.value].user == Some(userId)
    ensures r.None? <==> forall i :: 0 <= i < |ps| ==> ps[i].user != Some(userId)
    ensures r.Some? ==> forall i :: 0 <= i < r.value ==> ps[i].user != Some(userId)
  {
    if ps == [] then None
    else match PersonaOfUser(ps[..|ps| - 1], userId)
      case Some(k) => Some(k)
      case None => if ps[|ps| - 1].user == Some(userId) then Some(|ps| - 1) else None
  }

  /** The person of user `userId`, if any. */
  function LinkedPersona(ps: seq<Persona>, userId: nat): Option<Persona> {
    match PersonaOfUser(ps, userId)
    case None => None
    case Some(k) => Some(ps[k])
  }

  /** The position of the student row of person `personaId`. */
  function StudentOfPersona(ss: seq<Student>, personaId: nat): (r: Option<nat>)
    ensures r.Some? ==> r.value < |ss| && ss[r.value].persona == Some(personaId)
    ensures r.None? <==> forall i :: 0 <= i < |ss| ==> ss[i].persona != Some(personaId)
    ensures r.Some? ==> forall i :: 0 <= i < r.value ==> ss[i].persona != Some(personaId)
  {
    if ss == [] then None
    else match StudentOfPersona(ss[..|ss| - 1], personaId)
      case Some(k) => Some(k)
      case None => if ss[|ss| - 1].persona == Some(personaId) then Some(|ss| - 1) else None
  }

  /** The store invariant: persons are numbered by position, a user has at
      most one person and a person at most one student row, every student
      row belongs to a stored person, and stored change dates are real days. */
  ghost predicate DirectoryValid(ps: seq<Persona>, ss: seq<Student>) {
    (forall i :: 0 <= i < |ps| ==> ps[i].id == i) &&
    (forall i, j :: 0 <= i < j < |ps| && ps[i].user.Some? ==> ps[i].user != ps[j].user) &&
    (forall i :: 0 <= i < |ss| ==> ss[i].persona.Some? && ss[i].persona.value < |ps|) &&
    (forall i, j :: 0 <= i < j < |ss| ==> ss[i].persona != ss[j].persona) &&
    (forall i :: 0 <= i < |ss| && ss[i].lastMenuChange.Some? ==> Calendar.Valid(ss[i].lastMenuChange.value))
  }

  /** Replacing a student row by one of the same person with a real (or no)
      change date keeps the store invariant. */
  lemma ReplaceStudentKeepsValid(ps: seq<Persona>, ss: seq<Student>, k: nat, s: Student)
    requires DirectoryValid(ps, ss) && k < |ss| && s.persona == ss[k].persona
    requires s.lastMenuChange.Some? ==> Calendar.Valid(s.lastMenuChange.value)
    ensures DirectoryValid(ps, ss[k := s])
  {
    var ss' := ss[k := s];
    assert forall i :: 0 <= i < |ss'| ==> ss'[i].persona == ss[i].persona;
  }

  // ---------------------------------------------------------------------
  // The student's menu change

  datatype PreferenceError =
    | NoStudentProfile
    | NotAStudent
    | TooSoon(days: int)
    | LimitOverflow
    | NotAChoice
    | Rejected(error: StudentError)

  /** The lookups of `cambiar_preferencia_menu`: the positions of the
      user's person and of that person's student row. A user without a
      person or without a row gets the same error; a person with another
      role is refused as not a student. */
  function StudentRow(ps: seq<Persona>, ss: seq<Student>, userId: nat): (r: Result<(nat, nat), PreferenceError>)
    ensures r.Ok? <==> LinkedPersona(ps, userId).Some? && LinkedPersona(ps, userId).value.rol == "estudiante" &&
                       StudentOfPersona(ss, LinkedPersona(ps, userId).value.id).Some?
    ensures r.Ok? ==> r.value.0 < |ps| && r.value.1 < |ss| && PersonaOfUser(ps, userId) == Some(r.value.0) &&
                      StudentOfPersona(ss, ps[r.value.0].id) == Some(r.value.1)
    ensures r == Err(NotAStudent) <==> LinkedPersona(ps, userId).Some? && LinkedPersona(ps, userId).value.rol != "estudiante"
  {
    match PersonaOfUser(ps, userId)
    case None => Err(NoStudentProfile)
    case Some(k) =>
      if ps[k].rol != "estudiante" then Err(NotAStudent)
      else match StudentOfPersona(ss, ps[k].id)
        case None => Err(NoStudentProfile)
        case Some(j) => Ok((k, j))
  }

  /** The checks of `cambiar_preferencia_menu` on the student row `s` of a
      person of nationality `nationality`: the one-year limit, the choice
      list and the student rules on the row with the new preference. */
  function ApplyPreference(s: Student, nationality: string, pref: string, today: Calendar.Date)
    : (r: Result<Student, PreferenceError>)
    requires Calendar.Valid(today)
    requires s.lastMenuChange.Some? ==> Calendar.Valid(s.lastMenuChange.value)
    ensures r.Ok? <==> Accounts.MenuChangeGate(s.lastMenuChange, today) == Accounts.MayChange &&
                       Menus.KnownPreference(pref) && StudentClean(s.(preference := pref), Some(nationality)) == None
    ensures r.Ok? ==> r.value == s.(preference := pref, lastMenuChange := Some(today))
    ensures Accounts.MenuChangeGate(s.lastMenuChange, today).WaitDays? ==>
              r == Err(TooSoon(Accounts.MenuChangeGate(s.lastMenuChange, today).days))
  {
    match Accounts.MenuChangeGate(s.lastMenuChange, today)
    case WaitDays(d) => Err(TooSoon(d))
    case LimitOverflow => Err(LimitOverflow)
    case MayChange =>
      if !Menus.KnownPreference(pref) then Err(NotAChoice)
      else match StudentClean(s.(preference := pref), Some(nationality))
        case Some(e) => Err(Rejected(e))
        case None => Ok(s.(preference := pref, lastMenuChange := Some(today)))
  }

  /** The checks of `cambiar_preferencia_menu` on the student's row, in the
      view's order: the one-year gate, the choice list, then the student
      rules on the edited row, which is stamped with today when saved. */
  method CheckPreference(s: Student, nationality: string, pref: string, today: Calendar.Date)
    returns (r: Result<Student, PreferenceError>)
    requires Calendar.Valid(today)
    requires s.lastMenuChange.Some? ==> Calendar.Valid(s.lastMenuChange.value)
    ensures r == ApplyPreference(s, nationality, pref, today)
  {
    var gate := Accounts.MenuChangeGate(s.lastMenuChange, today);
    if gate.WaitDays? {
      return Err(TooSoon(gate.days));
    }
    if gate.LimitOverflow? {
      return Err(LimitOverflow);
    }
    if !Menus.KnownPreference(pref) {
      return Err(NotAChoice);
    }
    var edited := s.(preference := pref);
    var check := StudentClean(edited, Some(nationality));
    if check.Some? {
      return Err(Rejected(check.value));
    }
    r := Ok(edited.(lastMenuChange := Some(today)));
  }

  /** `cambiar_preferencia_menu` on a submitted form: the row's position and
      the row as saved, or why nothing was saved. */
  function PreferenceChange(ps: seq<Persona>, ss: seq<Student>, userId: nat, pref: string, today: Calendar.Date)
    : Result<(nat, Student), PreferenceError>
    requires DirectoryValid(ps, ss) && Calendar.Valid(today)
  {
    match StudentRow(ps, ss, userId)
    case Err(e) => Err(e)
    case Ok((k, j)) =>
      match ApplyPreference(ss[j], ps[k].nacionalidad, pref, today)
      case Err(e) => Err(e)
      case Ok(s) => Ok((j, s))
  }

  /** The student's own change never touches another row, and only a
      student passes: any other role is refused before the year limit is
      looked at. */
  lemma PreferenceChangeRules(ps: seq<Persona>, ss: seq<Student>, userId: nat, pref: string, today: Calendar.Date)
    requires DirectoryValid(ps, ss) && Calendar.Valid(today)
    ensures var r := PreferenceChange(ps, ss, userId, pref, today);
            r.Ok? ==> StudentRow(ps, ss, userId).Ok? && r.value.0 == StudentRow(ps, ss, userId).value.1 &&
                      r.value.1 == ss[r.value.0].(preference := pref, lastMenuChange := Some(today))
    ensures LinkedPersona(ps, userId).Some? && LinkedPersona(ps, userId).value.rol != "estudiante" ==>
              PreferenceChange(ps, ss, userId, pref, today) == Err(NotAStudent)
  {
  }

  /** A saved change closes the gate: the same student asking again on the
      same day is refused, with at least 365 days to wait. */
  lemma SecondChangeRefused(ps: seq<Persona>, ss: seq<Student>, userId: nat, pref: string, pref2: string,
                            today: Calendar.Date, j: nat, s: Student)
    requires DirectoryValid(ps, ss) && Calendar.Valid(today) && today.year < 9999
    requires PreferenceChange(ps, ss, userId, pref, today) == Ok((j, s))
    ensures j < |ss| && DirectoryValid(ps, ss[j := s])
    ensures var again := PreferenceChange(ps, ss[j := s], userId, pref2, today);
            again.Err? && again.error.TooSoon? && again.error.days >= 365
  {
    var (k, j0) := StudentRow(ps, ss, userId).value;
    assert j0 == j && s == ss[j].(preference := pref, lastMenuChange := Some(today));
    ReplaceStudentKeepsValid(ps, ss, j, s);
    RowSurvivesUpdate(ps, ss, userId, s);
    JustChangedWaits(s, ps[k].nacionalidad, pref2, today);
  }

  /** Rewriting the user's own row (same person) leaves the lookups as
      they were. */
  lemma RowSurvivesUpdate(ps: seq<Persona>, ss: seq<Student>, userId: nat, s: Student)
    requires StudentRow(ps, ss, userId).Ok?
    requires s.persona == ss[StudentRow(ps, ss, userId).value.1].persona
    ensures StudentRow(ps, ss[StudentRow(ps, ss, userId).value.1 := s], userId) == StudentRow(ps, ss, userId)
  {
    var (k, j) := StudentRow(ps, ss, userId).value;
    var pid := ps[k].id;
    var ss' := ss[j := s];
    forall i | 0 <= i < j
      ensures ss'[i].persona != Some(pid)
    {
      assert ss'[i] == ss[i];
    }
    assert ss'[j].persona == Some(pid);
    assert StudentOfPersona(ss', pid) == Some(j);
  }

  /** A row changed today must wait at least 365 days for the next change. */
  lemma JustChangedWaits(s: Student, nationality: string, pref: string, today: Calendar.Date)
    requires Calendar.Valid(today) && today.year < 9999 && s.lastMenuChange == Some(today)
    ensures var r := ApplyPreference(s, nationality, pref, today);
            r.Err? && r.error.TooSoon? && r.error.days >= 365
  {
    var limit := Calendar.AddOneYear(today).value;
    Calendar.BeforeIffSmallerOrdinal(today, limit);
    Calendar.OneYearLength(today);
  }

  // ---------------------------------------------------------------------
  // The administrator's save of a student row

  /** `get_preferencia_menu_display`: the label of a choice, or the stored
      value itself when it is not one. */
  function PreferenceDisplay(pref: string): string {
    if pref == Menus.Common then "Menú Común"
    else if pref == Menus.Vegetarian then "Menú Vegetariano"
    else if pref == Menus.CeliacCommon then "Celiaco Comun"
    else if pref == Menus.CeliacVegetarian then "Celiaco Vegetariano"
    else pref
  }

  /** The row `PersonaEstudianteAdmin.save_model` stores when an existing
      row is changed: a changed preference resets the last-change date to
      today, and a validation flag that changed to true is stamped with
      today and the administrator. */
  function AdminSaved(s: Student, changed: set<string>, admin: nat, today: Calendar.Date): Student {
    var s1 := if "preferencia_menu" in changed then s.(lastMenuChange := Some(today)) else s;
    if "celiaco_validado" in changed && s1.celiacValidated
    then s1.(celiacValidatedOn := Some(today), celiacValidatedBy := Some(admin))
    else s1
  }

  /** The texts of the observations the save writes. */
  const PreferenceNoteHead: string := "Cambio de preferencia de menú a: "
  const ValidationNoteText: string := "Condición celíaca validada. Documentación aprobada."
  const DdjjNoteText: string := "Se ha cargado DDJJ/certificado de condición celíaca. Pendiente de validación."

  function AdminNote(s: Student, text: string, admin: nat): Observation
    requires s.persona.Some?
  {
    Observation(s.persona.value, text, Some(admin), None, "observacion", None)
  }

  /** The observations that save writes, in order. */
  function AdminNotes(s: Student, changed: set<string>, admin: nat): seq<Observation>
    requires s.persona.Some?
  {
    (if "preferencia_menu" in changed
     then [AdminNote(s, PreferenceNoteHead + PreferenceDisplay(s.preference), admin)] else []) +
    (if "celiaco_validado" in changed && s.celiacValidated
     then [AdminNote(s, ValidationNoteText, admin)] else []) +
    (if "ddjj_celiaco" in changed && s.hasDdjj
     then [AdminNote(s, DdjjNoteText, admin)]
     else [])
  }

  /** The administrator's save never applies the one-year limit: a changed
      preference is stored with today as its change date, whatever the
      previous date; otherwise the date is kept as entered. */
  lemma AdminSaveDateRule(s: Student, changed: set<string>, admin: nat, today: Calendar.Date)
    ensures "preferencia_menu" in changed ==> AdminSaved(s, changed, admin, today).lastMenuChange == Some(today)
    ensures "preferencia_menu" !in changed ==> AdminSaved(s, changed, admin, today).lastMenuChange == s.lastMenuChange
  {
  }

  /** The validation stamp (date and administrator) is set only when the
      validation flag changed and is now true; otherwise it is kept. */
  lemma AdminSaveStampRule(s: Student, changed: set<string>, admin: nat, today: Calendar.Date)
    ensures var r := AdminSaved(s, changed, admin, today);
            if "celiaco_validado" in changed && s.celiacValidated
            then r.celiacValidatedOn == Some(today) && r.celiacValidatedBy == Some(admin)
            else r.celiacValidatedOn == s.celiacValidatedOn && r.celiacValidatedBy == s.celiacValidatedBy
  {
  }

  /** Apart from the change date and the stamp, the row is stored exactly as
      the administrator entered it. */
  lemma AdminSaveKeepsEntered(s: Student, changed: set<string>, admin: nat, today: Calendar.Date)
    ensures AdminSaved(s, changed, admin, today).(lastMenuChange := s.lastMenuChange,
                                                 celiacValidatedOn := s.celiacValidatedOn,
                                                 celiacValidatedBy := s.celiacValidatedBy) == s
  {
  }

  /** One observation per rule that fired: a changed preference, a
      validation to true, a changed declaration that is present. */
  lemma AdminNotesCount(s: Student, changed: set<string>, admin: nat)
    requires s.persona.Some?
    ensures |AdminNotes(s, changed, admin)| ==
              (if "preferencia_menu" in changed then 1 else 0) +
              (if "celiaco_validado" in changed && s.celiacValidated then 1 else 0) +
              (if "ddjj_celiaco" in changed && s.hasDdjj then 1 else 0)
    ensures forall i :: 0 <= i < |AdminNotes(s, changed, admin)| ==>
              AdminNotes(s, changed, admin)[i].persona == s.persona.value &&
              AdminNotes(s, changed, admin)[i].author == Some(admin)
  {
  }

  /** A student refused by the one-year limit can still have the
      preference changed by an administrator, and the change date moves to
      today. */
  lemma AdminBypassesYearLimit(s: Student, pref: string, admin: nat, today: Calendar.Date)
    requires s.persona.Some? && Calendar.Valid(today)
    requires s.lastMenuChange.Some? && Calendar.Valid(s.lastMenuChange.value)
    requires Accounts.MenuChangeGate(s.lastMenuChange, today).WaitDays?
    ensures AdminSaved(s.(preference := pref), {"preferencia_menu"}, admin, today)
            == s.(preference := pref, lastMenuChange := Some(today))
  {
  }

  /** The changes `PersonaEstudianteAdmin.save_model` makes before saving
      an existing row: the stamped row and the observations to write. */
  method AdminChanges(edited: Student, changed: set<string>, admin: nat, today: Calendar.Date)
    returns (s: Student, notes: seq<Observation>)
    requires edited.persona.Some?
    ensures s == AdminSaved(edited, changed, admin, today)
    ensures notes == AdminNotes(edited, changed, admin)
  {
    s := edited;
    var preferenceNote: seq<Observation> := [];
    if "preferencia_menu" in changed {
      s := s.(lastMenuChange := Some(today));
      preferenceNote := [AdminNote(edited, PreferenceNoteHead + PreferenceDisplay(edited.preference), admin)];
    }
    var validationNote: seq<Observation> := [];
    if "celiaco_validado" in changed && edited.celiacValidated {
      s := s.(celiacValidatedOn := Some(today), celiacValidatedBy := Some(admin));
      validationNote := [AdminNote(edited, ValidationNoteText, admin)];
    }
    var ddjjNote: seq<Observation> := [];
    if "ddjj_celiaco" in changed && edited.hasDdjj {
      ddjjNote := [AdminNote(edited, DdjjNoteText, admin)];
    }
    notes := preferenceNote + validationNote + ddjjNote;
  }

  // ---------------------------------------------------------------------
  // The change log

  /** The observation `registrar_cambio` writes: none for an empty
      dictionary, otherwise one carrying the description, the action and
      the dictionary itself. */
  function ChangeNotes(persona: nat, actor: Actor, entries: seq<Changelog.Entry>, action: string)
    : (r: seq<Observation>)
    ensures entries == [] <==> r == []
    ensures |r| <= 1
    ensures r != [] ==> r[0].data == Some(entries) && r[0].action == action && r[0].author == Some(actor.id) &&
                        r[0].description == Some(Changelog.Description(entries)) && r[0].persona == persona
  {
    if entries == [] then []
    else [Observation(persona, Changelog.ObservationText(action, actor.fullName, actor.username), Some(actor.id),
                      Some(Changelog.Description(entries)), action, Some(entries))]
  }

  class Directory {
    var profiles: seq<nat>
    var personas: seq<Persona>
    var students: seq<Student>
    var observations: seq<Observation>

    ghost predicate Valid()
      reads this
    {
      DirectoryValid(personas, students)
    }

    constructor (ps: seq<Persona>, ss: seq<Student>)
      requires DirectoryValid(ps, ss)
      ensures Valid()
      ensures profiles == [] && personas == ps && students == ss && observations == []
    {
      profiles := [];
      personas := ps;
      students := ss;
      observations := [];
    }

    /** The two `post_save` handlers of a user: a created user gets a user
        profile and, unless a person is already linked, a new person with
        the placeholder document and no role; a user update does nothing. */
    method OnUserCreated(u: User, created: bool)
      requires Valid()
      modifies this
      ensures Valid()
      ensures profiles == old(profiles) + (if created then [u.id] else [])
      ensures personas == old(personas) +
                (if created && PersonaOfUser(old(personas), u.id).None? then [NewPersona(u, |old(personas)|)] else [])
      ensures students == old(students) && observations == old(observations)
    {
      if created {
        profiles := profiles + [u.id];
        if PersonaOfUser(personas, u.id).None? {
          personas := personas + [NewPersona(u, |personas|)];
        }
      }
    }

    /** `seleccionar_rol` on a submitted form. */
    method SelectRole(userId: nat, choice: string) returns (r: Result<Persona, Accounts.RoleError>)
      requires Valid()
      modifies this
      ensures Valid()
      ensures r == Accounts.ChooseRole(LinkedPersona(old(personas), userId), choice)
      ensures personas == if r.Ok? then old(personas)[PersonaOfUser(old(personas), userId).value := r.value]
                          else old(personas)
      ensures profiles == old(profiles) && students == old(students) && observations == old(observations)
    {
      var k := PersonaOfUser(personas, userId);
      if k.None? {
        return Err(Accounts.NoPersona);
      }
      var p := personas[k.value];
      if p.rol != "" && !StartsWith(p.documento, TempPrefix) {
        return Err(Accounts.RoleIsLocked);
      }
      if !Accounts.RoleChoice(choice) {
        return Err(Accounts.InvalidRole);
      }
      personas := personas[k.value := p.(rol := choice)];
      r := Ok(p.(rol := choice));
    }

    /** `cambiar_preferencia_menu` on a submitted form. */
    method ChangeMenuPreference(userId: nat, pref: string, today: Calendar.Date)
      returns (r: Result<(nat, Student), PreferenceError>)
      requires Valid() && Calendar.Valid(today)
      modifies this
      ensures Valid()
      ensures r == PreferenceChange(old(personas), old(students), userId, pref, today)
      ensures students == if r.Ok? then old(students)[r.value.0 := r.value.1] else old(students)
      ensures profiles == old(profiles) && personas == old(personas) && observations == old(observations)
    {
      var k := PersonaOfUser(personas, userId);
      if k.None? {
        return Err(NoStudentProfile);
      }
      var p := personas[k.value];
      if p.rol != "estudiante" {
        return Err(NotAStudent);
      }
      var j := StudentOfPersona(students, p.id);
      if j.None? {
        return Err(NoStudentProfile);
      }
      var checked := CheckPreference(students[j.value], p.nacionalidad, pref, today);
      if checked.Err? {
        return Err(checked.error);
      }
      ReplaceStudentKeepsValid(personas, students, j.value, checked.value);
      students := students[j.value := checked.value];
      r := Ok((j.value, checked.value));
    }

    /** `PersonaEstudianteAdmin.save_model` for a change of the existing row
        at position `k`; `changed` names the fields the form saw change. */
    method AdminSaveStudent(k: nat, edited: Student, changed: set<string>, admin: nat, today: Calendar.Date)
      requires Valid() && Calendar.Valid(today)
      requires k < |students| && edited.persona == students[k].persona
      requires edited.lastMenuChange.Some? ==> Calendar.Valid(edited.lastMenuChange.value)
      modifies this
      ensures Valid()
      ensures students == old(students)[k := AdminSaved(edited, changed, admin, today)]
      ensures observations == old(observations) + AdminNotes(edited, changed, admin)
      ensures profiles == old(profiles) && personas == old(personas)
    {
      var s, notes := AdminChanges(edited, changed, admin, today);
      ReplaceStudentKeepsValid(personas, students, k, s);
      observations := observations + notes;
      students := students[k := s];
    }

    /** `registrar_cambio`: the description is built line by line and one
        observation is written, or nothing for an empty dictionary. */
    method RecordChanges(persona: nat, actor: Actor, entries: seq<Changelog.Entry>, action: string)
      modifies this
      ensures observations == old(observations) + ChangeNotes(persona, actor, entries, action)
      ensures profiles == old(profiles) && personas == old(personas) && students == old(students)
    {
      if entries == [] {
        return;
      }
      var description := Changelog.DescribeChanges(entries);
      var text := Changelog.ObservationText(action, actor.fullName, actor.username);
      observations := observations + [Observation(persona, text, Some(actor.id), Some(description), action, Some(entries))];
    }

    /** The logging part of `editar_persona`: the person's changed fields
        under the "Persona" label, then the profile row's under the role's
        label when the person has one, all recorded as one 'modificacion'. */
    method LogPersonaEdit(persona: nat, actor: Actor,
                          personaFields: seq<string>, personaBefore: map<string, Changelog.FieldValue>,
                          personaAfter: map<string, Changelog.FieldValue>,
                          roleLabel: Option<string>, profileFields: seq<string>,
                          profileBefore: map<string, Changelog.FieldValue>,
                          profileAfter: map<string, Changelog.FieldValue>)
      requires forall i :: 0 <= i < |personaFields| ==> personaFields[i] in personaBefore && personaFields[i] in personaAfter
      requires forall i :: 0 <= i < |profileFields| ==> profileFields[i] in profileBefore && profileFields[i] in profileAfter
      modifies this
      ensures observations == old(observations) +
                ChangeNotes(persona, actor,
                            Changelog.EditEntries("Persona", personaFields, personaBefore, personaAfter) +
                            (if roleLabel.Some?
                             then Changelog.EditEntries(roleLabel.value, profileFields, profileBefore, profileAfter)
                             else []),
                            "modificacion")
      ensures profiles == old(profiles) && personas == old(personas) && students == old(students)
    {
      var entries := Changelog.CollectChanges("Persona", personaFields, personaBefore, personaAfter);
      var more: seq<Changelog.Entry> := [];
      if roleLabel.Some? {
        more := Changelog.CollectChanges(roleLabel.value, profileFields, profileBefore, profileAfter);
      }
      assert more == if roleLabel.Some?
                     then Changelog.EditEntries(roleLabel.value, profileFields, profileBefore, profileAfter)
                     else [];
      RecordChanges(persona, actor, entries + more, "modificacion");
    }
  }
}
