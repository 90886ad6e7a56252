/**
  * The columns and inline choices of the person administration screens:
  * the celiac flag and the celiac-declaration status shown for a student,
  * and which inline editors a person's page carries.
  */
module PersonaAdmin {
  import opened Wrappers
  import opened Text
  import opened Personas
  import Calendar

  /** `get_es_celiaco`: the two values of the celiac column. */
  datatype CeliacMark = CeliacYes | CeliacNo

  function CeliacFlag(s: Student): (r: CeliacMark)
    ensures r == CeliacYes <==> Contains(Lower(s.preference), "celiaco")
  {
    if CeliacInPreference(s.preference) then CeliacYes else CeliacNo
  }

  /** `get_ddjj_celiaco_estado`: the five values of the status column, in
      the order the labels '-', 'Sin DDJJ', 'Vencida', 'Validada' and
      'Pendiente validación' name them. */
  datatype DdjjStatus = NotCeliac | NoDdjj | Expired | Validated | PendingValidation

  function DdjjStatusOf(s: Student, today: Calendar.Date): (r: DdjjStatus)
    ensures r == NotCeliac <==> !CeliacInPreference(s.preference)
    ensures r == NoDdjj <==> CeliacInPreference(s.preference) && !s.hasDdjj
    ensures r == PendingValidation <==> CeliacInPreference(s.preference) && s.hasDdjj && !s.celiacValidated
    ensures r == Expired <==>
              CeliacInPreference(s.preference) && s.hasDdjj && s.celiacValidated && DdjjCurrent(s, today) == Some(false)
  {
    if !CeliacInPreference(s.preference) then NotCeliac
    else if !s.hasDdjj then NoDdjj
    else if s.celiacValidated then
      (if DdjjCurrent(s, today) == Some(false) then Expired else Validated)
    else PendingValidation
  }

  /** The status column is blank exactly where the celiac column says no. */
  lemma StatusFollowsFlag(s: Student, today: Calendar.Date)
    ensures DdjjStatusOf(s, today) == NotCeliac <==> CeliacFlag(s) == CeliacNo
  {
  }

  /** A validated declaration with no expiry date is shown as validated,
      not as expired: only a known past expiry marks it expired. */
  lemma NoExpiryShownValidated(s: Student, today: Calendar.Date)
    requires CeliacInPreference(s.preference) && s.hasDdjj && s.celiacValidated && s.ddjjExpiry.None?
    ensures DdjjStatusOf(s, today) == Validated
  {
  }

  /** A validated declaration whose expiry day lies before today is shown
      as expired; on its expiry day it is still validated. */
  lemma ExpiredAfterExpiryDay(s: Student, today: Calendar.Date)
    requires CeliacInPreference(s.preference) && s.hasDdjj && s.celiacValidated && s.ddjjExpiry.Some?
    ensures Calendar.Before(s.ddjjExpiry.value, today) ==> DdjjStatusOf(s, today) == Expired
    ensures DdjjStatusOf(s, s.ddjjExpiry.value) == Validated
  {
  }

  /** The inline editors of the person page. */
  datatype Inline = StudentInline | TeacherInline | StaffInline | ObservationInline

  /** `PersonaAdmin.get_inlines`; `obj` is absent on the add page. */
  function Inlines(obj: Option<Persona>): (r: seq<Inline>)
    ensures |r| >= 1 && r[|r| - 1] == ObservationInline
    ensures forall i :: 0 <= i < |r| - 1 ==> r[i] != ObservationInline
  {
    if obj.Some? && obj.value.rol == "estudiante" then [StudentInline, ObservationInline]
    else if obj.Some? && obj.value.rol == "docente" then [TeacherInline, ObservationInline]
    else if obj.Some? && obj.value.rol == "no_docente" then [StaffInline, ObservationInline]
    else [ObservationInline]
  }

  /** A profile editor is shown exactly for the three roles that have a
      profile row, and it is the one matching the role. */
  lemma InlinesByRole(obj: Option<Persona>)
    ensures |Inlines(obj)| == 2 <==>
              obj.Some? && (obj.value.rol == "estudiante" || obj.value.rol == "docente" || obj.value.rol == "no_docente")
    ensures StudentInline in Inlines(obj) <==> obj.Some? && obj.value.rol == "estudiante"
    ensures TeacherInline in Inlines(obj) <==> obj.Some? && obj.value.rol == "docente"
    ensures StaffInline in Inlines(obj) <==> obj.Some? && obj.value.rol == "no_docente"
  {
  }
}
