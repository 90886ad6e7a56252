/**
  * Cafeteria benefit policies (`BeneficioComedor`): the kind of benefit a
  * scholarship grants and the percentage, and the two pricing functions
  * `calcular_precio_final` and `calcular_descuento`. Amounts are exact
  * decimals, modelled as reals; neither function rounds.
  */
module Benefits {

  datatype BenefitKind = Gratuito | Descuento | Ninguno

  /** A benefit row: the scholarship (`tipo_beca`) it belongs to, its kind,
      its percentage (`porcentaje_descuento`) and whether it is active. */
  datatype Benefit = Benefit(id: nat, scholarship: nat, kind: BenefitKind, percent: real, active: bool)

  /** The test both pricing functions and both issuance flows use for "free":
      kind `gratuito`, or a percentage of exactly 100 whatever the kind. */
  predicate IsFree(b: Benefit) {
    b.kind == Gratuito || b.percent == 100.0
  }

  /** `calcular_precio_final`. */
  function FinalPrice(b: Benefit, base: real): real {
    if IsFree(b) then 0.0
    else if b.kind == Descuento then base - base * (b.percent / 100.0)
    else base
  }

  /** `calcular_descuento`. */
  function DiscountAmount(b: Benefit, base: real): real {
    if IsFree(b) then base
    else if b.kind == Descuento then base * (b.percent / 100.0)
    else 0.0
  }

  /** Raising a discount's percentage never raises the price: on a
      non-negative base, the larger of two `descuento` percentages (up to
      100, where the benefit becomes free) charges at most as much and
      discounts at least as much. */
  lemma LargerDiscountChargesLess(b1: Benefit, b2: Benefit, base: real)
    requires b1.kind == Descuento && b2.kind == Descuento
    requires 0.0 <= b1.percent <= b2.percent <= 100.0 && 0.0 <= base
    ensures FinalPrice(b2, base) <= FinalPrice(b1, base)
    ensures DiscountAmount(b1, base) <= DiscountAmount(b2, base)
  {
    var f1, f2 := b1.percent / 100.0, b2.percent / 100.0;
    assert base * f1 <= base * f2 by {
      assert base * (f2 - f1) >= 0.0;
    }
    MulBetween(base, f1);
  }

  /** A `ninguno` benefit at 100% is still treated as free. */
  lemma NoneKindAtHundredIsFree(b: Benefit, base: real)
    requires b.kind == Ninguno && b.percent == 100.0
    ensures FinalPrice(b, base) == 0.0 && DiscountAmount(b, base) == base
  {
  }

  /** The final price and the discount always add up to the base price exactly. */
  lemma PriceSplitsBase(b: Benefit, base: real)
    ensures FinalPrice(b, base) + DiscountAmount(b, base) == base
  {
  }

  /** With a percentage in [0, 100] (the model field's validators) and a
      non-negative base, both amounts lie between 0 and the base. */
  lemma PriceBounds(b: Benefit, base: real)
    requires 0.0 <= b.percent <= 100.0 && 0.0 <= base
    ensures 0.0 <= FinalPrice(b, base) <= base
    ensures 0.0 <= DiscountAmount(b, base) <= base
  {
    var f := b.percent / 100.0;
    assert 0.0 <= f <= 1.0;
    MulBetween(base, f);
  }

  lemma MulBetween(x: real, f: real)
    requires 0.0 <= x && 0.0 <= f <= 1.0
    ensures 0.0 <= x * f <= x
  {
    assert x * f <= x * 1.0 by {
      assert x * (1.0 - f) >= 0.0;
    }
  }

  /** What `BeneficioComedor.__str__` reports after the scholarship name. */
  datatype BenefitLabel = FreeLabel | PercentLabel(percent: real) | NoBenefitLabel

  function Label(b: Benefit): BenefitLabel {
    if IsFree(b) then FreeLabel
    else if b.kind == Descuento && b.percent > 0.0 then PercentLabel(b.percent)
    else NoBenefitLabel
  }

  /** For a positive base price and a percentage in [0, 100], the label
      describes the price effect: "free" exactly when nothing is paid,
      a percentage exactly when part of the price is discounted, and
      "no benefit" exactly when nothing is discounted. */
  lemma LabelMatchesPricing(b: Benefit, base: real)
    requires 0.0 <= b.percent <= 100.0 && base > 0.0
    ensures Label(b) == FreeLabel <==> FinalPrice(b, base) == 0.0
    ensures Label(b).PercentLabel? <==> 0.0 < DiscountAmount(b, base) < base
    ensures Label(b) == NoBenefitLabel <==> DiscountAmount(b, base) == 0.0
  {
    if !IsFree(b) && b.kind == Descuento {
      var f := b.percent / 100.0;
      assert f < 1.0;
      assert base * f < base by {
        assert base * (1.0 - f) > 0.0;
      }
      if b.percent > 0.0 {
        assert base * f > 0.0;
      } else {
        assert base * f == 0.0;
      }
    }
  }
}
