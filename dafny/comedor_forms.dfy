/**
  * The validation rules of the cafeteria administration forms: the benefit
  * form (`BeneficioComedorForm`), the scholarship form (`BecaForm`) and
  * the two date-range forms. A form's `clean` both reports errors and
  * rewrites cleaned values; each rule here returns both.
  */
module ComedorForms {
  import opened Wrappers
  import Calendar
  import opened Benefits
  import opened Grants

  /** `clean_porcentaje_descuento`: the percentage must lie in [0, 100]. */
  predicate PercentInRange(p: real) {
    !(p < 0.0 || p > 100.0)
  }

  datatype BenefitFormError = PercentNotDecimal | PercentOutOfRange | FreeNeedsHundred | DiscountNeedsPositive

  /** The outcome of validating the benefit form: the form-level `clean`
      either raises (a server error) or finishes with a set of errors and
      the cleaned percentage (absent when the field itself failed). */
  datatype BenefitFormOutcome =
    | Raised
    | Cleaned(errors: set<BenefitFormError>, percent: Option<real>)

  /** The field step: an out-of-range percentage is dropped from the cleaned
      data with an error. `entered` is the parsed field value, absent when
      the input is not a decimal. */
  function FieldPercent(entered: Option<real>): Option<real> {
    if entered.Some? && PercentInRange(entered.value) then entered else None
  }

  /** The errors of the field step. */
  function FieldErrors(entered: Option<real>): set<BenefitFormError> {
    if entered.None? then {PercentNotDecimal}
    else if !PercentInRange(entered.value) then {PercentOutOfRange}
    else {}
  }

  /** The form as the source writes it. The discount rule compares the
      cleaned percentage with zero without checking that it is present,
      and comparing the missing value raises. */
  function BenefitFormAsWritten(kind: BenefitKind, entered: Option<real>): (r: BenefitFormOutcome)
    ensures r == Raised <==> kind == Descuento && (entered.None? || !PercentInRange(entered.value))
  {
    var fieldErrors := FieldErrors(entered);
    var p := FieldPercent(entered);
    if kind == Gratuito then
      if p != Some(100.0) then Cleaned(fieldErrors + {FreeNeedsHundred}, Some(100.0))
      else Cleaned(fieldErrors, p)
    else if kind == Descuento then
      if p.None? then Raised
      else if p.value <= 0.0 then Cleaned(fieldErrors + {DiscountNeedsPositive}, p)
      else Cleaned(fieldErrors, p)
    else
      if p != Some(0.0) then Cleaned(fieldErrors, Some(0.0)) else Cleaned(fieldErrors, p)
  }

  /** A discount benefit entered at 150% makes the form raise instead of
      reporting the range error. */
  lemma DiscountOutOfRangeRaises()
    ensures BenefitFormAsWritten(Descuento, Some(150.0)) == Raised
    ensures BenefitFormAsWritten(Descuento, Some(-5.0)) == Raised
  {
  }

  /** The form as evidently intended: the discount rule applies only to a
      percentage that survived the field step. */
  function BenefitForm(kind: BenefitKind, entered: Option<real>): (r: BenefitFormOutcome)
    ensures r.Cleaned?
  {
    var fieldErrors := FieldErrors(entered);
    var p := FieldPercent(entered);
    if kind == Gratuito then
      if p != Some(100.0) then Cleaned(fieldErrors + {FreeNeedsHundred}, Some(100.0))
      else Cleaned(fieldErrors, p)
    else if kind == Descuento then
      if p.Some? && p.value <= 0.0 then Cleaned(fieldErrors + {DiscountNeedsPositive}, p)
      else Cleaned(fieldErrors, p)
    else
      if p != Some(0.0) then Cleaned(fieldErrors, Some(0.0)) else Cleaned(fieldErrors, p)
  }

  /** The corrected form never raises, agrees with the source wherever the
      source does not raise, and accepts exactly the consistent pairs:
      a free benefit at 100, a discount in (0, 100], any `ninguno` in
      range, whose cleaned percentage is then 0. */
  lemma BenefitFormRules(kind: BenefitKind, entered: Option<real>)
    ensures BenefitFormAsWritten(kind, entered).Cleaned? ==>
              BenefitForm(kind, entered) == BenefitFormAsWritten(kind, entered)
    ensures BenefitForm(kind, entered).errors == {} <==>
              entered.Some? && PercentInRange(entered.value) &&
              (kind == Gratuito ==> entered.value == 100.0) &&
              (kind == Descuento ==> entered.value > 0.0)
    ensures kind == Gratuito ==> BenefitForm(kind, entered).percent == Some(100.0)
    ensures kind == Ninguno ==> BenefitForm(kind, entered).percent == Some(0.0)
    ensures kind == Gratuito && entered != Some(100.0) ==> FreeNeedsHundred in BenefitForm(kind, entered).errors
    ensures kind == Ninguno ==> FreeNeedsHundred !in BenefitForm(kind, entered).errors &&
                                DiscountNeedsPositive !in BenefitForm(kind, entered).errors
  {
  }

  /** A benefit saved from an error-free form is priced within [0, base]
      and is free exactly when its kind is `gratuito`. */
  lemma AcceptedBenefitPricing(b: Benefit, base: real)
    requires BenefitForm(b.kind, Some(b.percent)) == Cleaned({}, Some(b.percent))
    requires base >= 0.0
    ensures 0.0 <= FinalPrice(b, base) <= base
    ensures IsFree(b) <==> b.kind == Gratuito || (b.kind == Descuento && b.percent == 100.0)
  {
    BenefitFormRules(b.kind, Some(b.percent));
    PriceBounds(b, base);
  }

  /** `BecaForm.clean`: the errors and the cleaned suggested amount. */
  datatype ScholarshipFormOutcome = ScholarshipFormOutcome(suggestedMissing: bool, suggested: Option<real>)

  function ScholarshipForm(hasAmount: bool, suggested: Option<real>): ScholarshipFormOutcome {
    ScholarshipFormOutcome(
      hasAmount && !Truthy(suggested),
      if !hasAmount && Truthy(suggested) then None else suggested)
  }

  /** The form refuses what `Beca.clean` refuses, and a scholarship that
      pays nothing keeps no non-zero suggested amount. */
  lemma ScholarshipFormRules(s: Scholarship)
    ensures ScholarshipForm(s.hasAmount, s.suggestedAmount).suggestedMissing <==> !ScholarshipValid(s)
    ensures !s.hasAmount ==> !Truthy(ScholarshipForm(s.hasAmount, s.suggestedAmount).suggested)
    ensures s.hasAmount ==> ScholarshipForm(s.hasAmount, s.suggestedAmount).suggested == s.suggestedAmount
  {
  }

  /** The date-range rule shared by the carousel image form and the celiac
      certificate form: a range whose first date comes after its second is
      refused; equal dates pass and a missing date skips the check. */
  predicate RangeAccepted(first: Option<Calendar.Date>, second: Option<Calendar.Date>) {
    !(first.Some? && second.Some? && Calendar.Before(second.value, first.value))
  }

  lemma RangeAcceptedCases(first: Option<Calendar.Date>, second: Option<Calendar.Date>)
    requires first.Some? ==> Calendar.Valid(first.value)
    requires second.Some? ==> Calendar.Valid(second.value)
    ensures first.None? || second.None? ==> RangeAccepted(first, second)
    ensures first.Some? && second.Some? ==>
              (RangeAccepted(first, second) <==> Calendar.Ordinal(first.value) <= Calendar.Ordinal(second.value))
  {
    if first.Some? && second.Some? {
      Calendar.BeforeIffSmallerOrdinal(second.value, first.value);
    }
  }
}
