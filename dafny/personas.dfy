/**
  * People (`Persona`, `PersonaEstudiante`, `PersonaNoDocente`): the name
  * shown for a person, profile completeness, and the student and staff
  * record rules.
  */
module Personas {
  import opened Wrappers
  import opened Text
  import Calendar

  /** A person row. `perceivedName` is the optional perceived name and
      `perceivedValidated` whether it was validated; `rol` is blank until a
      role is chosen. */
  datatype Persona = Persona(
    id: nat,
    user: Option<nat>,
    nombre: string,
    perceivedName: Option<string>,
    perceivedValidated: bool,
    apellido: string,
    documento: string,
    nacionalidad: string,
    correo: string,
    rol: string)

  /** The prefix of the placeholder document of an unfinished profile. */
  const TempPrefix: string := "TEMP_"

  /** The placeholder document given to the person of user `userId`. */
  function TempDocument(userId: nat): (d: string)
    ensures StartsWith(d, TempPrefix)
  {
    TempPrefix + NatToString(userId)
  }

  /** `get_nombre_visible`: the perceived name when it is non-empty and
      validated, the legal name otherwise. */
  function VisibleName(p: Persona): (r: string)
    ensures r == p.nombre || (p.perceivedValidated && p.perceivedName == Some(r) && r != "")
  {
    if p.perceivedName.Some? && p.perceivedName.value != "" && p.perceivedValidated
    then p.perceivedName.value
    else p.nombre
  }

  /** `nombre_completo`. */
  function FullName(p: Persona): (r: string)
    ensures |r| == |VisibleName(p)| + 1 + |p.apellido|
  {
    VisibleName(p) + " " + p.apellido
  }

  /** A perceived name is shown exactly when it is non-empty and validated;
      an unvalidated one never reaches the full name. */
  lemma PerceivedNameShown(p: Persona)
    ensures (p.perceivedName.Some? && p.perceivedName.value != "" && p.perceivedValidated)
            ==> FullName(p) == p.perceivedName.value + " " + p.apellido
    ensures !p.perceivedValidated ==> FullName(p) == p.nombre + " " + p.apellido
    ensures (p.perceivedName == None || p.perceivedName == Some("")) ==> VisibleName(p) == p.nombre
  {
  }

  /** `perfil_completo`. */
  predicate ProfileComplete(p: Persona) {
    !StartsWith(p.documento, TempPrefix)
  }

  /** A placeholder document marks the profile incomplete, while any
      document of digits only (the only form the field's validator
      accepts) marks it complete. */
  lemma ProfileCompleteness(p: Persona, userId: nat)
    ensures !ProfileComplete(p.(documento := TempDocument(userId)))
    ensures (forall i :: 0 <= i < |p.documento| ==> IsDigit(p.documento[i])) ==> ProfileComplete(p)
  {
    if |TempPrefix| <= |p.documento| && forall i :: 0 <= i < |p.documento| ==> IsDigit(p.documento[i]) {
      assert IsDigit(p.documento[0]);
      assert p.documento[..|TempPrefix|][0] != TempPrefix[0];
    }
  }

  /** The student profile row, restricted to the fields the rules read. */
  datatype Student = Student(
    id: nat,
    persona: Option<nat>,
    preference: string,
    lastMenuChange: Option<Calendar.Date>,
    hasDdjj: bool,
    ddjjExpiry: Option<Calendar.Date>,
    celiacValidated: bool,
    celiacValidatedOn: Option<Calendar.Date>,
    celiacValidatedBy: Option<nat>,
    hasAcceptanceLetter: bool,
    validatedRegular: bool)

  /** The preference names a celiac menu: `'celiaco' in pref.lower()`. */
  predicate CeliacInPreference(pref: string) {
    Contains(Lower(pref), "celiaco")
  }

  /** Both celiac menu keys start with `celiaco`, which is already in
      lower case, so such a preference counts as celiac. */
  lemma CeliacPrefixIsCeliac(pref: string)
    requires StartsWith(pref, "celiaco")
    ensures CeliacInPreference(pref)
  {
    var low := Lower(pref);
    assert forall i :: 0 <= i < 7 ==> low[i] == pref[i];
    assert low[..7] == "celiaco";
  }

  datatype StudentError = DdjjRequired | AcceptanceLetterRequired

  /** `PersonaEstudiante.clean`. `nationality` is the linked person's
      nationality, absent when no person is linked; the first failing rule
      is the one reported. */
  function StudentClean(s: Student, nationality: Option<string>): Option<StudentError> {
    if CeliacInPreference(s.preference) && !s.hasDdjj then Some(DdjjRequired)
    else if nationality.Some? && !LowerEquals(nationality.value, "argentina") && !s.hasAcceptanceLetter
    then Some(AcceptanceLetterRequired)
    else None
  }

  /** A student record is accepted exactly when a celiac preference comes
      with a declaration and a foreign student has an acceptance letter;
      the declaration is checked first. */
  lemma StudentCleanAccepts(s: Student, nationality: Option<string>)
    ensures StudentClean(s, nationality) == None <==>
              (CeliacInPreference(s.preference) ==> s.hasDdjj) &&
              (nationality.Some? && Lower(nationality.value) != "argentina" ==> s.hasAcceptanceLetter)
    ensures CeliacInPreference(s.preference) && !s.hasDdjj ==> StudentClean(s, nationality) == Some(DdjjRequired)
  {
    if nationality.Some? {
      LowerEqualsIff(nationality.value, "argentina");
    }
  }

  /** Nationality is compared case-insensitively. */
  lemma NationalityCaseInsensitive(s: Student)
    requires !s.hasAcceptanceLetter && !CeliacInPreference(s.preference)
    ensures StudentClean(s, Some("ARGENTINA")) == None
    ensures StudentClean(s, Some("Argentina")) == None
    ensures StudentClean(s, Some("Chile")) == Some(AcceptanceLetterRequired)
  {
  }

  /** `ddjj_celiaco_vigente`: unknown without an expiry date, else whether
      the expiry date is today or later. */
  function DdjjCurrent(s: Student, today: Calendar.Date): (r: Option<bool>)
    ensures r.None? <==> s.ddjjExpiry.None?
    ensures r == Some(true) <==> s.ddjjExpiry.Some? && Calendar.AtOrBefore(today, s.ddjjExpiry.value)
  {
    if s.ddjjExpiry.None? then None else Some(Calendar.AtOrBefore(today, s.ddjjExpiry.value))
  }

  /** On valid dates the declaration is current exactly while the days left
      until expiry are not negative. */
  lemma DdjjCurrentByDays(s: Student, today: Calendar.Date)
    requires s.ddjjExpiry.Some? && Calendar.Valid(today) && Calendar.Valid(s.ddjjExpiry.value)
    ensures DdjjCurrent(s, today) == Some(Calendar.DaysBetween(today, s.ddjjExpiry.value) >= 0)
  {
    Calendar.AtOrBeforeIffOrdinal(today, s.ddjjExpiry.value);
  }

  /** `PersonaNoDocente.clean`: the end of employment must come strictly
      after its start. */
  predicate StaffDatesValid(start: Calendar.Date, end: Calendar.Date) {
    !Calendar.AtOrBefore(end, start)
  }

  lemma StaffDatesByDays(start: Calendar.Date, end: Calendar.Date)
    requires Calendar.Valid(start) && Calendar.Valid(end)
    ensures StaffDatesValid(start, end) <==> Calendar.DaysBetween(start, end) > 0
  {
    Calendar.AtOrBeforeIffOrdinal(end, start);
  }
}
