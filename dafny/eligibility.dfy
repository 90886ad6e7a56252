/**
  * Eligibility resolution, shared in two variants by the purchase view
  * (`comprar_tickets`) and the free-ticket view (`generar_ticket_gratuito`):
  * scan the student's grants that are `ACTIVA` and whose date range
  * contains today, in stored order, and look up the active cafeteria
  * benefit of each grant's scholarship. The paid flow stops at the first
  * grant with any active benefit, the free flow at the first whose benefit
  * is free. A scholarship with several active benefits makes the lookup
  * raise, which nothing catches.
  */
module Eligibility {
  import opened Wrappers
  import Calendar
  import opened Benefits
  import opened Grants

  /** The result of `BeneficioComedor.objects.get(tipo_beca=..., activo=True)`. */
  datatype Lookup = NoBenefit | OneBenefit(benefit: Benefit) | SeveralBenefits

  /** The active benefits of scholarship `s`, in stored order. */
  function ActiveBenefits(bs: seq<Benefit>, s: nat): (r: seq<Benefit>)
    ensures forall b :: b in r ==> b in bs && b.active && b.scholarship == s
    ensures forall b :: b in bs && b.active && b.scholarship == s ==> b in r
  {
    if bs == [] then []
    else
      var rest := ActiveBenefits(bs[..|bs| - 1], s);
      var b := bs[|bs| - 1];
      assert bs == bs[..|bs| - 1] + [b];
      if b.active && b.scholarship == s then rest + [b] else rest
  }

  function LookupBenefit(bs: seq<Benefit>, s: nat): Lookup {
    var found := ActiveBenefits(bs, s);
    if |found| == 0 then NoBenefit
    else if |found| == 1 then OneBenefit(found[0])
    else SeveralBenefits
  }

  /** The lookup, as a scan over the benefit rows. */
  method LookupActiveBenefit(bs: seq<Benefit>, s: nat) returns (r: Lookup)
    ensures r == LookupBenefit(bs, s)
  {
    var found: seq<Benefit> := [];
    var i := 0;
    while i < |bs|
      invariant 0 <= i <= |bs|
      invariant found == ActiveBenefits(bs[..i], s)
    {
      assert bs[..i + 1][..i] == bs[..i];
      if bs[i].active && bs[i].scholarship == s {
        found := found + [bs[i]];
      }
      i := i + 1;
    }
    assert bs[..i] == bs;
    if |found| == 0 {
      r := NoBenefit;
    } else if |found| == 1 {
      r := OneBenefit(found[0]);
    } else {
      r := SeveralBenefits;
    }
  }

  /** The grant filter: the student's grant, `ACTIVA`, with
      `fecha_inicio <= today <= fecha_fin` (a missing date never matches). */
  predicate Candidate(g: Grant, student: nat, today: Calendar.Date) {
    g.student == Some(student) && g.state == Activa &&
    g.start.Some? && g.end.Some? &&
    Calendar.AtOrBefore(g.start.value, today) && Calendar.AtOrBefore(today, g.end.value)
  }

  /** The benefit chosen and the grant it came from. */
  datatype Pick = Pick(benefit: Benefit, grant: Grant)

  datatype Resolution = NoneFound | Found(pick: Pick) | Crashed

  /** The paid flow's choice: the first candidate grant whose scholarship
      has an active benefit, of any kind. */
  function FirstBenefit(gs: seq<Grant>, bs: seq<Benefit>, student: nat, today: Calendar.Date): Resolution
    decreases |gs|
  {
    if gs == [] then NoneFound
    else if !Candidate(gs[0], student, today) then FirstBenefit(gs[1..], bs, student, today)
    else match LookupBenefit(bs, gs[0].scholarship)
      case NoBenefit => FirstBenefit(gs[1..], bs, student, today)
      case OneBenefit(b) => Found(Pick(b, gs[0]))
      case SeveralBenefits => Crashed
  }

  /** The free flow's choice: the first candidate grant whose scholarship's
      active benefit is free. */
  function FirstFreeBenefit(gs: seq<Grant>, bs: seq<Benefit>, student: nat, today: Calendar.Date): Resolution
    decreases |gs|
  {
    if gs == [] then NoneFound
    else if !Candidate(gs[0], student, today) then FirstFreeBenefit(gs[1..], bs, student, today)
    else match LookupBenefit(bs, gs[0].scholarship)
      case NoBenefit => FirstFreeBenefit(gs[1..], bs, student, today)
      case OneBenefit(b) =>
        if IsFree(b) then Found(Pick(b, gs[0])) else FirstFreeBenefit(gs[1..], bs, student, today)
      case SeveralBenefits => Crashed
  }

  /** The purchase view's scan: the benefit and grant it keeps, and its
      `es_gratuito` flag. */
  method ResolvePaid(gs: seq<Grant>, bs: seq<Benefit>, student: nat, today: Calendar.Date)
    returns (r: Resolution, free: bool)
    ensures r == FirstBenefit(gs, bs, student, today)
    ensures free <==> r.Found? && IsFree(r.pick.benefit)
  {
    var i := 0;
    while i < |gs|
      invariant 0 <= i <= |gs|
      invariant FirstBenefit(gs, bs, student, today) == FirstBenefit(gs[i..], bs, student, today)
    {
      assert gs[i..][1..] == gs[i + 1..];
      if Candidate(gs[i], student, today) {
        var lookup := LookupActiveBenefit(bs, gs[i].scholarship);
        match lookup {
          case OneBenefit(b) =>
            r := Found(Pick(b, gs[i]));
            free := IsFree(b);
            return;
          case SeveralBenefits =>
            r := Crashed;
            free := false;
            return;
          case NoBenefit =>
        }
      }
      i := i + 1;
    }
    r := NoneFound;
    free := false;
  }

  /** The free-ticket view's scan. */
  method ResolveFree(gs: seq<Grant>, bs: seq<Benefit>, student: nat, today: Calendar.Date)
    returns (r: Resolution)
    ensures r == FirstFreeBenefit(gs, bs, student, today)
  {
    var i := 0;
    while i < |gs|
      invariant 0 <= i <= |gs|
      invariant FirstFreeBenefit(gs, bs, student, today) == FirstFreeBenefit(gs[i..], bs, student, today)
    {
      assert gs[i..][1..] == gs[i + 1..];
      if Candidate(gs[i], student, today) {
        var lookup := LookupActiveBenefit(bs, gs[i].scholarship);
        match lookup {
          case OneBenefit(b) =>
            if IsFree(b) {
              r := Found(Pick(b, gs[i]));
              return;
            }
          case SeveralBenefits =>
            r := Crashed;
            return;
          case NoBenefit =>
        }
      }
      i := i + 1;
    }
    r := NoneFound;
  }

  /** The paid flow's pick is the first candidate with an active benefit:
      it comes from a stored candidate grant, its benefit is the unique
      active benefit of that grant's scholarship, and every earlier
      candidate's scholarship has none. */
  lemma {:induction false} FirstBenefitIsFirstMatch(gs: seq<Grant>, bs: seq<Benefit>, student: nat, today: Calendar.Date)
    requires FirstBenefit(gs, bs, student, today).Found?
    ensures var p := FirstBenefit(gs, bs, student, today).pick;
            exists k :: 0 <= k < |gs| && gs[k] == p.grant &&
              Candidate(gs[k], student, today) &&
              LookupBenefit(bs, gs[k].scholarship) == OneBenefit(p.benefit) &&
              forall j :: 0 <= j < k && Candidate(gs[j], student, today) ==>
                LookupBenefit(bs, gs[j].scholarship) == NoBenefit
    decreases |gs|
  {
    var p := FirstBenefit(gs, bs, student, today).pick;
    if Candidate(gs[0], student, today) && LookupBenefit(bs, gs[0].scholarship).OneBenefit? {
      assert gs[0] == p.grant;
    } else {
      FirstBenefitIsFirstMatch(gs[1..], bs, student, today);
      var k :| 0 <= k < |gs[1..]| && gs[1..][k] == p.grant &&
              Candidate(gs[1..][k], student, today) &&
              LookupBenefit(bs, gs[1..][k].scholarship) == OneBenefit(p.benefit) &&
              forall j :: 0 <= j < k && Candidate(gs[1..][j], student, today) ==>
                LookupBenefit(bs, gs[1..][j].scholarship) == NoBenefit;
      assert gs[k + 1] == p.grant;
      forall j | 0 <= j < k + 1 && Candidate(gs[j], student, today)
        ensures LookupBenefit(bs, gs[j].scholarship) == NoBenefit
      {
        if j > 0 {
          assert gs[j] == gs[1..][j - 1];
        }
      }
    }
  }

  /** The chosen benefit is active and belongs to the grant's scholarship. */
  lemma LookupFindsOwnBenefit(bs: seq<Benefit>, s: nat)
    requires LookupBenefit(bs, s).OneBenefit?
    ensures LookupBenefit(bs, s).benefit in bs
    ensures LookupBenefit(bs, s).benefit.active && LookupBenefit(bs, s).benefit.scholarship == s
  {
    assert ActiveBenefits(bs, s)[0] in ActiveBenefits(bs, s);
  }

  /** Nothing is found exactly when no candidate grant's scholarship has an
      active benefit and none has several. */
  lemma {:induction false} NoneFoundIffNoBenefit(gs: seq<Grant>, bs: seq<Benefit>, student: nat, today: Calendar.Date)
    ensures FirstBenefit(gs, bs, student, today) == NoneFound <==>
              forall j :: 0 <= j < |gs| && Candidate(gs[j], student, today) ==>
                LookupBenefit(bs, gs[j].scholarship) == NoBenefit
    decreases |gs|
  {
    if gs != [] {
      NoneFoundIffNoBenefit(gs[1..], bs, student, today);
      assert forall j :: 1 <= j < |gs| ==> gs[j] == gs[1..][j - 1];
    }
  }

  /** Grants that are not candidates play no part: the scan over the
      candidates alone picks the same. */
  function Candidates(gs: seq<Grant>, student: nat, today: Calendar.Date): seq<Grant>
    decreases |gs|
  {
    if gs == [] then []
    else if Candidate(gs[0], student, today) then [gs[0]] + Candidates(gs[1..], student, today)
    else Candidates(gs[1..], student, today)
  }

  lemma {:induction false} OnlyCandidatesMatter(gs: seq<Grant>, bs: seq<Benefit>, student: nat, today: Calendar.Date)
    ensures FirstBenefit(gs, bs, student, today) == FirstBenefit(Candidates(gs, student, today), bs, student, today)
    ensures FirstFreeBenefit(gs, bs, student, today) == FirstFreeBenefit(Candidates(gs, student, today), bs, student, today)
    decreases |gs|
  {
    if gs != [] {
      OnlyCandidatesMatter(gs[1..], bs, student, today);
      if Candidate(gs[0], student, today) {
        var c := Candidates(gs, student, today);
        assert c[0] == gs[0] && c[1..] == Candidates(gs[1..], student, today);
      }
    }
  }

  /** The free flow only ever picks a free benefit. */
  lemma {:induction false} FreeFlowPicksFree(gs: seq<Grant>, bs: seq<Benefit>, student: nat, today: Calendar.Date)
    requires FirstFreeBenefit(gs, bs, student, today).Found?
    ensures IsFree(FirstFreeBenefit(gs, bs, student, today).pick.benefit)
    ensures Candidate(FirstFreeBenefit(gs, bs, student, today).pick.grant, student, today)
    decreases |gs|
  {
    if !(Candidate(gs[0], student, today) && LookupBenefit(bs, gs[0].scholarship).OneBenefit?
         && IsFree(LookupBenefit(bs, gs[0].scholarship).benefit)) {
      FreeFlowPicksFree(gs[1..], bs, student, today);
    }
  }

  /** When the paid flow's first benefit is free (its `es_gratuito` flag),
      the free flow picks the same benefit and grant. */
  lemma {:induction false} FreeFlagMeansSamePick(gs: seq<Grant>, bs: seq<Benefit>, student: nat, today: Calendar.Date)
    requires FirstBenefit(gs, bs, student, today).Found?
    requires IsFree(FirstBenefit(gs, bs, student, today).pick.benefit)
    ensures FirstFreeBenefit(gs, bs, student, today) == FirstBenefit(gs, bs, student, today)
    decreases |gs|
  {
    if !(Candidate(gs[0], student, today) && LookupBenefit(bs, gs[0].scholarship).OneBenefit?) {
      FreeFlagMeansSamePick(gs[1..], bs, student, today);
    }
  }

  /** The two flows can pick different grants: with a discount grant stored
      before a free one, the paid flow takes the discount and the free
      flow the free grant. */
  lemma FlowsCanDiffer()
    ensures var today := Calendar.Date(2025, 5, 1);
            var g1 := Grant(1, Some(9), None, 10, Some(Calendar.Date(2025, 1, 1)), Some(Calendar.Date(2025, 12, 31)), Activa, None, None);
            var g2 := g1.(id := 2, scholarship := 20);
            var half := Benefit(1, 10, Descuento, 50.0, true);
            var free := Benefit(2, 20, Gratuito, 100.0, true);
            FirstBenefit([g1, g2], [half, free], 9, today) == Found(Pick(half, g1)) &&
            FirstFreeBenefit([g1, g2], [half, free], 9, today) == Found(Pick(free, g2))
  {
    var today := Calendar.Date(2025, 5, 1);
    var g1 := Grant(1, Some(9), None, 10, Some(Calendar.Date(2025, 1, 1)), Some(Calendar.Date(2025, 12, 31)), Activa, None, None);
    var g2 := g1.(id := 2, scholarship := 20);
    var half := Benefit(1, 10, Descuento, 50.0, true);
    var free := Benefit(2, 20, Gratuito, 100.0, true);
    var bs := [half, free];
    assert bs[..1] == [half];
    assert [half][..0] == [];
    assert ActiveBenefits([half], 10) == [half];
    assert ActiveBenefits([half], 20) == [];
    assert ActiveBenefits(bs, 10) == [half];
    assert ActiveBenefits(bs, 20) == [free];
    assert [g1, g2][1..] == [g2];
  }
}
