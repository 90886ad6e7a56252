/**
  * Ticket issuance as the two purchase views perform it, stated on values.
  * A view first decides a `Plan` (the menu, the per-ticket prices, the
  * benefit and grant, the quantity and the purchase fields) or refuses;
  * the plan is then carried out inside one transaction that inserts the
  * purchase and its tickets, or nothing at all.
  */
module Issuance {
  import opened Wrappers
  import opened Text
  import Calendar
  import opened Benefits
  import opened Grants
  import opened Tickets
  import opened Menus
  import opened Eligibility

  datatype IssueError =
    | LookupCrashed       // several active benefits for one scholarship
    | NoPreference        // paid flow: no menu preference
    | PreferenceNotKnown  // paid flow: a preference outside the four
    | MenuMissing         // paid flow: the selected slot is empty
    | NotEligible         // free flow: no free benefit found
    | MenuUnavailable     // free flow: slot empty or menu inactive
    | CeliacFormMissing   // free flow: celiac request without the form
    | NegativeQuantity    // the purchase's positive-integer column refuses it
    | DateOverflow        // today + 30 days is past the last date
    | DuplicateCode       // a ticket code already in use

  /** What a view decided to issue. */
  datatype Plan = Plan(
    menu: nat,
    base: real,
    discount: real,
    paid: real,
    pick: Option<Pick>,
    count: int,
    celiac: bool,
    celiacForm: bool,
    payment: PaymentMethod,
    benefited: int)

  /** Every configured slot names a stored menu. */
  predicate SlotsInRange(c: MenuConfig, menuCount: nat) {
    (c.common.Some? ==> c.common.value < menuCount) &&
    (c.vegetarian.Some? ==> c.vegetarian.value < menuCount) &&
    (c.celiacCommon.Some? ==> c.celiacCommon.value < menuCount) &&
    (c.celiacVegetarian.Some? ==> c.celiacVegetarian.value < menuCount)
  }

  /** A plan the store can carry out consistently: its menu exists and its
      benefited count is all or none of its tickets. */
  predicate WellFormed(p: Plan, menuCount: nat) {
    p.menu < menuCount && p.benefited == (if p.pick.Some? then p.count else 0)
  }

  /** The purchase view's decision (`comprar_tickets`). `preference` is
      empty when the user has no student profile. */
  function PaidPlan(c: MenuConfig, menus: seq<Menu>, preference: string, res: Resolution): (r: Result<Plan, IssueError>)
    requires SlotsInRange(c, |menus|)
    ensures r.Ok? ==> WellFormed(r.value, |menus|)
  {
    if res.Crashed? then Err(LookupCrashed)
    else if preference == "" then Err(NoPreference)
    else match PaidFlowSlot(c, preference)
      case UnknownPreference => Err(PreferenceNotKnown)
      case Slot(None) => Err(MenuMissing)
      case Slot(Some(id)) =>
        var base := menus[id].price;
        var final := if res.Found? then FinalPrice(res.pick.benefit, base) else base;
        var discount := if res.Found? then DiscountAmount(res.pick.benefit, base) else 0.0;
        var total := final * 1.0;
        Ok(Plan(id, base, discount, final,
                if res.Found? then Some(res.pick) else None,
                1, CeliacPreference(preference), false,
                if total > 0.0 then Efectivo else BecaGratuita,
                if res.Found? then 1 else 0))
  }

  /** The free-ticket view's decision (`generar_ticket_gratuito`), with the
      view's own preference mapping `FreeFlowSlotAsWritten`: the common
      slot for `comun`, the vegetarian slot for every other preference. */
  function FreePlan(c: MenuConfig, menus: seq<Menu>, preference: string, res: Resolution,
                    quantity: int, celiac: bool, formAttached: bool): (r: Result<Plan, IssueError>)
    requires SlotsInRange(c, |menus|)
    ensures r.Ok? ==> WellFormed(r.value, |menus|)
  {
    if res.Crashed? then Err(LookupCrashed)
    else if !res.Found? then Err(NotEligible)
    else
      var slot := FreeFlowSlotAsWritten(c, preference);
      if slot.None? || !menus[slot.value].active then Err(MenuUnavailable)
      else if celiac && c.requiresCeliacForm && !formAttached then Err(CeliacFormMissing)
      else
        var base := menus[slot.value].price;
        Ok(Plan(slot.value, base, base, 0.0, Some(res.pick), quantity,
                celiac, celiac && formAttached, BecaGratuita, quantity))
  }

  /** The paid flow refuses exactly a crashed lookup, a missing or unknown
      preference and an empty slot; otherwise it plans one ticket. */
  lemma PaidPlanRefusals(c: MenuConfig, menus: seq<Menu>, preference: string, res: Resolution)
    requires SlotsInRange(c, |menus|)
    ensures PaidPlan(c, menus, preference, res).Ok? <==>
              !res.Crashed? && preference != "" && KnownPreference(preference) &&
              PaidFlowSlot(c, preference).menu.Some?
    ensures PaidPlan(c, menus, preference, res).Ok? ==> PaidPlan(c, menus, preference, res).value.count == 1
  {
  }

  /** A paid ticket is priced by the resolved benefit, or at the menu price
      without one; the payment method is cash exactly when something is
      paid; the ticket needs a celiac menu exactly when the preference
      starts with `celiaco`. */
  lemma PaidPlanPricing(c: MenuConfig, menus: seq<Menu>, preference: string, res: Resolution)
    requires SlotsInRange(c, |menus|)
    requires PaidPlan(c, menus, preference, res).Ok?
    ensures var p := PaidPlan(c, menus, preference, res).value;
            p.base == menus[p.menu].price &&
            PaidFlowSlot(c, preference) == Slot(Some(p.menu)) &&
            (res.Found? ==> p.pick == Some(res.pick) &&
                            p.paid == FinalPrice(res.pick.benefit, p.base) &&
                            p.discount == DiscountAmount(res.pick.benefit, p.base)) &&
            (!res.Found? ==> p.pick.None? && p.paid == p.base && p.discount == 0.0) &&
            p.paid + p.discount == p.base &&
            (p.payment == Efectivo <==> p.paid > 0.0) &&
            (p.payment == BecaGratuita <==> p.paid <= 0.0) &&
            p.benefited == (if res.Found? then 1 else 0) &&
            (p.celiac <==> StartsWith(preference, "celiaco")) && !p.celiacForm
  {
    var p := PaidPlan(c, menus, preference, res).value;
    if res.Found? {
      PriceSplitsBase(res.pick.benefit, p.base);
    }
  }

  /** A free ticket is paid nothing and discounted by its full base price,
      for a menu that is active, and every ticket counts as benefited; the
      menu is the common one for `comun` and the vegetarian one for every
      other preference, celiac ones included. */
  lemma FreePlanPricing(c: MenuConfig, menus: seq<Menu>, preference: string, res: Resolution,
                        quantity: int, celiac: bool, formAttached: bool)
    requires SlotsInRange(c, |menus|)
    requires FreePlan(c, menus, preference, res, quantity, celiac, formAttached).Ok?
    ensures var p := FreePlan(c, menus, preference, res, quantity, celiac, formAttached).value;
            res.Found? && p.pick == Some(res.pick) &&
            Some(p.menu) == FreeFlowSlotAsWritten(c, preference) && menus[p.menu].active &&
            (preference == Common ==> Some(p.menu) == c.common) &&
            (preference != Common ==> Some(p.menu) == c.vegetarian) &&
            p.base == menus[p.menu].price && p.paid == 0.0 && p.discount == p.base &&
            p.payment == BecaGratuita && p.count == quantity && p.benefited == quantity &&
            p.celiac == celiac && (p.celiacForm <==> celiac && formAttached) &&
            (celiac && c.requiresCeliacForm ==> formAttached)
  {
  }

  /** The free flow refuses without a free benefit, with an unusable menu,
      or with a celiac request lacking the form the configuration demands;
      for any preference but `comun` the menu that must be usable is the
      vegetarian one. */
  lemma FreePlanRefusals(c: MenuConfig, menus: seq<Menu>, preference: string, res: Resolution,
                         quantity: int, celiac: bool, formAttached: bool)
    requires SlotsInRange(c, |menus|)
    ensures FreePlan(c, menus, preference, res, quantity, celiac, formAttached).Ok? <==>
              res.Found? &&
              FreeFlowSlotAsWritten(c, preference).Some? &&
              menus[FreeFlowSlotAsWritten(c, preference).value].active &&
              !(celiac && c.requiresCeliacForm && !formAttached)
  {
  }

  /** A free-benefit student whose preference is not `comun` is refused
      whenever the vegetarian slot is empty, whatever the celiac slots
      hold. */
  lemma FreeFlowNeedsVegetarianSlot(c: MenuConfig, menus: seq<Menu>, preference: string, res: Resolution,
                                    quantity: int, celiac: bool, formAttached: bool)
    requires SlotsInRange(c, |menus|)
    requires res.Found? && preference != Common && c.vegetarian.None?
    ensures FreePlan(c, menus, preference, res, quantity, celiac, formAttached) == Err(MenuUnavailable)
  {
  }

  /** When the paid flow's benefit is free, a paid ticket is priced exactly
      as a free-flow ticket for the same student and menu would be. */
  lemma FreeBenefitSamePriceInBothFlows(c: MenuConfig, menus: seq<Menu>, gs: seq<Grant>, bs: seq<Benefit>,
                                        student: nat, today: Calendar.Date, quantity: int)
    requires SlotsInRange(c, |menus|)
    requires c.common.Some? && menus[c.common.value].active
    requires FirstBenefit(gs, bs, student, today).Found?
    requires IsFree(FirstBenefit(gs, bs, student, today).pick.benefit)
    ensures var paid := PaidPlan(c, menus, Common, FirstBenefit(gs, bs, student, today));
            var free := FreePlan(c, menus, Common, FirstFreeBenefit(gs, bs, student, today), quantity, false, false);
            paid.Ok? && free.Ok? &&
            paid.value.pick == free.value.pick && paid.value.menu == free.value.menu &&
            paid.value.paid == free.value.paid == 0.0 && paid.value.discount == free.value.discount &&
            paid.value.payment == free.value.payment == BecaGratuita
  {
    FreeFlagMeansSamePick(gs, bs, student, today);
  }

  /** A purchase plan is paid nothing with a benefit attached exactly when
      the benefit is free, for a menu with a positive price and a benefit
      percentage in [0, 100]; for a menu priced at zero, exactly when a
      benefit is attached. */
  lemma PaidPlanFreeness(c: MenuConfig, menus: seq<Menu>, preference: string, res: Resolution)
    requires SlotsInRange(c, |menus|)
    requires PaidPlan(c, menus, preference, res).Ok?
    requires res.Found? ==> 0.0 <= res.pick.benefit.percent <= 100.0
    ensures var p := PaidPlan(c, menus, preference, res).value;
            (p.base > 0.0 ==> (p.paid == 0.0 && p.pick.Some? <==> res.Found? && IsFree(res.pick.benefit))) &&
            (p.base == 0.0 ==> (p.paid == 0.0 && p.pick.Some? <==> res.Found?))
  {
    var p := PaidPlan(c, menus, preference, res).value;
    PaidPlanPricing(c, menus, preference, res);
    if res.Found? && p.base > 0.0 {
      LabelMatchesPricing(res.pick.benefit, p.base);
    }
  }

  /** `es_gratuito` on a purchased ticket: for a menu with a positive price
      it holds exactly when the resolved benefit is free (its percentage in
      [0, 100]); for a menu priced at zero, which the price rule lets
      through, it holds for every benefited ticket. */
  lemma PaidTicketFreeIffFreeBenefit(c: MenuConfig, menus: seq<Menu>, preference: string, res: Resolution,
                                     user: nat, purchase: nat, validUntil: Calendar.Date,
                                     stored: nat, codes: nat -> string, k: nat)
    requires SlotsInRange(c, |menus|)
    requires PaidPlan(c, menus, preference, res).Ok?
    requires res.Found? ==> 0.0 <= res.pick.benefit.percent <= 100.0
    requires k < PaidPlan(c, menus, preference, res).value.count
    ensures var p := PaidPlan(c, menus, preference, res).value;
            var t := PlannedTickets(p, user, purchase, validUntil, stored, codes, p.count)[k];
            (menus[p.menu].price > 0.0 ==> (IsFreeTicket(t) <==> res.Found? && IsFree(res.pick.benefit))) &&
            (menus[p.menu].price == 0.0 ==> (IsFreeTicket(t) <==> res.Found?))
  {
    var p := PaidPlan(c, menus, preference, res).value;
    var t := PlannedTickets(p, user, purchase, validUntil, stored, codes, p.count)[k];
    assert t.paid == p.paid && t.benefit.Some? == p.pick.Some?;
    PaidPlanPricing(c, menus, preference, res);
    PaidPlanFreeness(c, menus, preference, res);
  }

  /** Every free-flow ticket is `es_gratuito`, and for a menu with a
      positive price its applied percentage is 100. */
  lemma FreeTicketsAreFree(c: MenuConfig, menus: seq<Menu>, preference: string, res: Resolution,
                           quantity: int, celiac: bool, formAttached: bool,
                           user: nat, purchase: nat, validUntil: Calendar.Date,
                           stored: nat, codes: nat -> string, k: nat)
    requires SlotsInRange(c, |menus|)
    requires FreePlan(c, menus, preference, res, quantity, celiac, formAttached).Ok?
    requires k < quantity
    ensures var p := FreePlan(c, menus, preference, res, quantity, celiac, formAttached).value;
            var t := PlannedTickets(p, user, purchase, validUntil, stored, codes, quantity)[k];
            IsFreeTicket(t) && (t.basePrice > 0.0 ==> AppliedPercent(t) == 100.0)
  {
    var p := FreePlan(c, menus, preference, res, quantity, celiac, formAttached).value;
    var t := PlannedTickets(p, user, purchase, validUntil, stored, codes, quantity)[k];
    if t.basePrice > 0.0 {
      AppliedPercentShare(t);
    }
  }

  /** The codes the generator yields for `n` tickets are unused and
      pairwise different. */
  predicate CodesFresh(ts: seq<Ticket>, codes: nat -> string, n: nat) {
    (forall k, i :: 0 <= k < n && 0 <= i < |ts| ==> ts[i].code != codes(k)) &&
    (forall j, k :: 0 <= j < k < n ==> codes(j) != codes(k))
  }

  function BenefitKey(pick: Option<Pick>): Option<nat> {
    if pick.Some? then Some(pick.value.benefit.id) else None
  }

  function GrantKey(pick: Option<Pick>): Option<nat> {
    if pick.Some? then Some(pick.value.grant.id) else None
  }

  /** The ticket a plan creates, before `Ticket.save` fills its code and number. */
  function PlannedTicket(p: Plan, user: nat, purchase: nat, validUntil: Calendar.Date): Ticket {
    Ticket(user, p.menu, "", "", Pagado, p.base, p.discount, p.paid,
           BenefitKey(p.pick), GrantKey(p.pick), Some(validUntil), Some(purchase),
           p.celiac, p.celiacForm)
  }

  /** The `k`-th ticket inserted after `stored` existing ones. */
  function NthPlanned(p: Plan, user: nat, purchase: nat, validUntil: Calendar.Date,
                      stored: nat, codes: nat -> string, k: nat): Ticket {
    WithIdentifiers(PlannedTicket(p, user, purchase, validUntil), codes(k), stored + k)
  }

  /** The `n` tickets inserted after `stored` existing ones. */
  function PlannedTickets(p: Plan, user: nat, purchase: nat, validUntil: Calendar.Date,
                          stored: nat, codes: nat -> string, n: nat): (r: seq<Ticket>)
    ensures |r| == n
    ensures forall k :: 0 <= k < n ==>
              r[k] == WithIdentifiers(PlannedTicket(p, user, purchase, validUntil), codes(k), stored + k)
  {
    seq(n, k requires 0 <= k => NthPlanned(p, user, purchase, validUntil, stored, codes, k))
  }

  /** One more planned ticket extends the sequence by the next one. */
  lemma PlannedTicketsStep(p: Plan, user: nat, purchase: nat, validUntil: Calendar.Date,
                           stored: nat, codes: nat -> string, n: nat)
    ensures PlannedTickets(p, user, purchase, validUntil, stored, codes, n + 1) ==
            PlannedTickets(p, user, purchase, validUntil, stored, codes, n) +
            [WithIdentifiers(PlannedTicket(p, user, purchase, validUntil), codes(n), stored + n)]
  {
    var a := PlannedTickets(p, user, purchase, validUntil, stored, codes, n + 1);
    var front := PlannedTickets(p, user, purchase, validUntil, stored, codes, n);
    var last := NthPlanned(p, user, purchase, validUntil, stored, codes, n);
    assert a == front + [last] by {
      assert |a| == |front + [last]|;
      forall k | 0 <= k < n + 1
        ensures a[k] == (front + [last])[k]
      {
        if k < n {
          assert a[k] == NthPlanned(p, user, purchase, validUntil, stored, codes, k) == front[k];
        }
      }
    }
  }

  /** The purchase row a plan creates. */
  function PlannedPurchase(p: Plan, user: nat): Purchase {
    Purchase(user, p.count, p.count as real * p.base, p.count as real * p.discount,
             p.count as real * p.paid, p.payment, p.benefited)
  }

  const ValidityDays: nat := 30

  /** The outcome of carrying out a plan against the stored purchases and
      tickets: the key of the new purchase, or why the transaction failed. */
  function ExecResult(p: Plan, purchases: seq<Purchase>, tickets: seq<Ticket>,
                      today: Calendar.Date, codes: nat -> string): Result<nat, IssueError>
    requires Calendar.Valid(today)
  {
    if p.count < 0 then Err(NegativeQuantity)
    else if Calendar.AddDays(today, ValidityDays).None? then Err(DateOverflow)
    else if !CodesFresh(tickets, codes, p.count) then Err(DuplicateCode)
    else Ok(|purchases|)
  }

  /** The stored purchases and tickets after carrying out a plan. */
  function ExecState(p: Plan, user: nat, purchases: seq<Purchase>, tickets: seq<Ticket>,
                     today: Calendar.Date, codes: nat -> string): (seq<Purchase>, seq<Ticket>)
    requires Calendar.Valid(today)
  {
    if ExecResult(p, purchases, tickets, today, codes).Err? then (purchases, tickets)
    else
      (purchases + [PlannedPurchase(p, user)],
       tickets + PlannedTickets(p, user, |purchases|, Calendar.AddDays(today, ValidityDays).value,
                                |tickets|, codes, p.count))
  }

  /** All or nothing: a failed transaction leaves both stores as they were;
      a successful one appends exactly one purchase and its `count` tickets,
      each paid, priced and linked as planned, valid for 30 days, numbered
      after the tickets already stored and coded by the generator. */
  lemma ExecAllOrNothing(p: Plan, user: nat, purchases: seq<Purchase>, tickets: seq<Ticket>,
                         today: Calendar.Date, codes: nat -> string)
    requires Calendar.Valid(today)
    requires forall k :: codes(k) != ""
    ensures var (ps, ts) := ExecState(p, user, purchases, tickets, today, codes);
            (ExecResult(p, purchases, tickets, today, codes).Err? ==> ps == purchases && ts == tickets) &&
            (ExecResult(p, purchases, tickets, today, codes).Ok? ==>
               p.count >= 0 &&
               ps == purchases + [PlannedPurchase(p, user)] &&
               |ts| == |tickets| + p.count && ts[..|tickets|] == tickets &&
               forall k :: |tickets| <= k < |ts| ==>
                 ts[k].state == Pagado && ts[k].user == user && ts[k].menu == p.menu &&
                 ts[k].basePrice == p.base && ts[k].discount == p.discount && ts[k].paid == p.paid &&
                 ts[k].benefit == BenefitKey(p.pick) && ts[k].grant == GrantKey(p.pick) &&
                 ts[k].purchase == Some(|purchases|) &&
                 ts[k].validUntil.Some? &&
                 Calendar.Ordinal(ts[k].validUntil.value) == Calendar.Ordinal(today) + 30 &&
                 ts[k].code == codes(k - |tickets|) &&
                 ParseTicketNumber(ts[k].number) == Some(k + 1))
  {
    if ExecResult(p, purchases, tickets, today, codes).Ok? {
      var ts := ExecState(p, user, purchases, tickets, today, codes).1;
      var added := PlannedTickets(p, user, |purchases|, Calendar.AddDays(today, ValidityDays).value,
                                   |tickets|, codes, p.count);
      assert ts == tickets + added;
      forall k | |tickets| <= k < |ts|
        ensures ParseTicketNumber(ts[k].number) == Some(k + 1)
      {
        assert ts[k] == added[k - |tickets|];
      }
    }
  }

  /** The tickets of purchase `p`, in store order. */
  function TicketsOf(ts: seq<Ticket>, p: nat): (r: seq<Ticket>)
    ensures |r| <= |ts|
    ensures forall t :: t in r ==> t in ts && t.purchase == Some(p)
  {
    if ts == [] then []
    else
      var rest := TicketsOf(ts[..|ts| - 1], p);
      var t := ts[|ts| - 1];
      if t.purchase == Some(p) then rest + [t] else rest
  }

  lemma {:induction false} TicketsOfAppend(a: seq<Ticket>, b: seq<Ticket>, p: nat)
    ensures TicketsOf(a + b, p) == TicketsOf(a, p) + TicketsOf(b, p)
    decreases |b|
  {
    if b == [] {
      assert a + b == a;
    } else {
      assert (a + b)[..|a + b| - 1] == a + b[..|b| - 1];
      TicketsOfAppend(a, b[..|b| - 1], p);
    }
  }

  lemma {:induction false} TicketsOfNone(ts: seq<Ticket>, p: nat)
    requires forall i :: 0 <= i < |ts| ==> ts[i].purchase != Some(p)
    ensures TicketsOf(ts, p) == []
  {
    if ts != [] {
      TicketsOfNone(ts[..|ts| - 1], p);
    }
  }

  lemma {:induction false} TicketsOfAll(ts: seq<Ticket>, p: nat)
    requires forall i :: 0 <= i < |ts| ==> ts[i].purchase == Some(p)
    ensures TicketsOf(ts, p) == ts
  {
    if ts != [] {
      var front := ts[..|ts| - 1];
      assert forall i :: 0 <= i < |front| ==> front[i] == ts[i];
      TicketsOfAll(front, p);
      assert front + [ts[|ts| - 1]] == ts;
    }
  }

  /** The store invariant: tickets are numbered by position, every ticket
      belongs to a stored purchase and a stored menu, codes are unique,
      and every purchase's aggregates agree with its tickets. */
  predicate StoreValid(purchases: seq<Purchase>, tickets: seq<Ticket>, menuCount: nat) {
    (forall i :: 0 <= i < |tickets| ==> tickets[i].number == TicketNumber(i + 1)) &&
    (forall i :: 0 <= i < |tickets| ==>
       tickets[i].purchase.Some? && tickets[i].purchase.value < |purchases| && tickets[i].menu < menuCount) &&
    (forall i, j :: 0 <= i < j < |tickets| ==> tickets[i].code != tickets[j].code) &&
    (forall p :: 0 <= p < |purchases| ==> Consistent(purchases[p], TicketsOf(tickets, p)))
  }

  /** Ticket numbers in a valid store are unique. */
  lemma NumbersUnique(purchases: seq<Purchase>, tickets: seq<Ticket>, menuCount: nat, i: nat, j: nat)
    requires StoreValid(purchases, tickets, menuCount)
    requires i < j < |tickets|
    ensures tickets[i].number != tickets[j].number
  {
    if tickets[i].number == tickets[j].number {
      TicketNumberInjective(i + 1, j + 1);
    }
  }

  /** Carrying out a well-formed plan keeps the store valid. */
  lemma ExecKeepsStoreValid(p: Plan, user: nat, purchases: seq<Purchase>, tickets: seq<Ticket>,
                            menuCount: nat, today: Calendar.Date, codes: nat -> string)
    requires Calendar.Valid(today) && WellFormed(p, menuCount)
    requires StoreValid(purchases, tickets, menuCount)
    ensures var (ps, ts) := ExecState(p, user, purchases, tickets, today, codes);
            StoreValid(ps, ts, menuCount)
  {
    if ExecResult(p, purchases, tickets, today, codes).Ok? {
      var valid := Calendar.AddDays(today, ValidityDays).value;
      var added := PlannedTickets(p, user, |purchases|, valid, |tickets|, codes, p.count);
      AppendedTicketsValid(p, user, purchases, tickets, menuCount, valid, codes, added);
    }
  }

  /** A refused transaction leaves the stores as they were. */
  lemma ExecRefusedKeepsState(p: Plan, user: nat, purchases: seq<Purchase>, tickets: seq<Ticket>,
                              today: Calendar.Date, codes: nat -> string)
    requires Calendar.Valid(today)
    requires ExecResult(p, purchases, tickets, today, codes).Err?
    ensures ExecState(p, user, purchases, tickets, today, codes) == (purchases, tickets)
  {
  }

  /** A successful transaction commits exactly the planned purchase and
      tickets, and the store stays valid. */
  lemma ExecCommits(p: Plan, user: nat, purchases: seq<Purchase>, tickets: seq<Ticket>,
                    menuCount: nat, today: Calendar.Date, codes: nat -> string, added: seq<Ticket>)
    requires Calendar.Valid(today) && WellFormed(p, menuCount)
    requires StoreValid(purchases, tickets, menuCount)
    requires ExecResult(p, purchases, tickets, today, codes).Ok?
    requires added == PlannedTickets(p, user, |purchases|, Calendar.AddDays(today, ValidityDays).value,
                                     |tickets|, codes, p.count)
    ensures ExecState(p, user, purchases, tickets, today, codes) ==
            (purchases + [PlannedPurchase(p, user)], tickets + added)
    ensures StoreValid(purchases + [PlannedPurchase(p, user)], tickets + added, menuCount)
  {
    ExecKeepsStoreValid(p, user, purchases, tickets, menuCount, today, codes);
  }

  /** The fields of the planned tickets, one by one. */
  predicate Shaped(p: Plan, purchase: nat, stored: nat, codes: nat -> string, added: seq<Ticket>) {
    forall k :: 0 <= k < |added| ==>
      added[k].purchase == Some(purchase) && added[k].menu == p.menu &&
      added[k].basePrice == p.base && added[k].discount == p.discount && added[k].paid == p.paid &&
      added[k].benefit.Some? == p.pick.Some? &&
      added[k].number == TicketNumber(stored + k + 1) && added[k].code == codes(k)
  }

  lemma PlannedTicketsShaped(p: Plan, user: nat, purchase: nat, valid: Calendar.Date,
                             stored: nat, codes: nat -> string, n: nat)
    ensures Shaped(p, purchase, stored, codes, PlannedTickets(p, user, purchase, valid, stored, codes, n))
  {
  }

  lemma AppendedTicketsValid(p: Plan, user: nat, purchases: seq<Purchase>, tickets: seq<Ticket>,
                             menuCount: nat, valid: Calendar.Date, codes: nat -> string, added: seq<Ticket>)
    requires WellFormed(p, menuCount) && p.count >= 0
    requires StoreValid(purchases, tickets, menuCount)
    requires CodesFresh(tickets, codes, p.count)
    requires added == PlannedTickets(p, user, |purchases|, valid, |tickets|, codes, p.count)
    ensures StoreValid(purchases + [PlannedPurchase(p, user)], tickets + added, menuCount)
  {
    PlannedTicketsShaped(p, user, |purchases|, valid, |tickets|, codes, p.count);
    AppendedShapedValid(p, user, purchases, tickets, menuCount, codes, added);
  }

  lemma AppendedShapedValid(p: Plan, user: nat, purchases: seq<Purchase>, tickets: seq<Ticket>,
                            menuCount: nat, codes: nat -> string, added: seq<Ticket>)
    requires WellFormed(p, menuCount) && p.count >= 0 && |added| == p.count
    requires StoreValid(purchases, tickets, menuCount)
    requires CodesFresh(tickets, codes, p.count)
    requires Shaped(p, |purchases|, |tickets|, codes, added)
    ensures StoreValid(purchases + [PlannedPurchase(p, user)], tickets + added, menuCount)
  {
    var ps := purchases + [PlannedPurchase(p, user)];
    var ts := tickets + added;
    forall i | 0 <= i < |ts|
      ensures ts[i].number == TicketNumber(i + 1)
      ensures ts[i].purchase.Some? && ts[i].purchase.value < |ps| && ts[i].menu < menuCount
    {
      if i >= |tickets| {
        assert ts[i] == added[i - |tickets|];
      }
    }
    AppendedCodesUnique(tickets, added, codes);
    forall q | 0 <= q < |ps|
      ensures Consistent(ps[q], TicketsOf(ts, q))
    {
      AppendedPurchaseConsistent(p, user, purchases, tickets, codes, added, q);
    }
  }

  lemma AppendedCodesUnique(tickets: seq<Ticket>, added: seq<Ticket>, codes: nat -> string)
    requires forall i, j :: 0 <= i < j < |tickets| ==> tickets[i].code != tickets[j].code
    requires CodesFresh(tickets, codes, |added|)
    requires forall k :: 0 <= k < |added| ==> added[k].code == codes(k)
    ensures forall i, j :: 0 <= i < j < |tickets + added| ==> (tickets + added)[i].code != (tickets + added)[j].code
  {
    var ts := tickets + added;
    forall i, j | 0 <= i < j < |ts|
      ensures ts[i].code != ts[j].code
    {
      if j >= |tickets| {
        assert ts[j] == added[j - |tickets|];
        if i >= |tickets| {
          assert ts[i] == added[i - |tickets|];
        }
      }
    }
  }

  lemma AppendedPurchaseConsistent(p: Plan, user: nat, purchases: seq<Purchase>, tickets: seq<Ticket>,
                                   codes: nat -> string, added: seq<Ticket>, q: nat)
    requires p.count >= 0 && |added| == p.count && p.benefited == (if p.pick.Some? then p.count else 0)
    requires forall i :: 0 <= i < |tickets| ==> tickets[i].purchase.Some? && tickets[i].purchase.value < |purchases|
    requires forall r :: 0 <= r < |purchases| ==> Consistent(purchases[r], TicketsOf(tickets, r))
    requires Shaped(p, |purchases|, |tickets|, codes, added)
    requires q <= |purchases|
    ensures Consistent((purchases + [PlannedPurchase(p, user)])[q], TicketsOf(tickets + added, q))
  {
    var ps := purchases + [PlannedPurchase(p, user)];
    TicketsOfAppend(tickets, added, q);
    if q < |purchases| {
      TicketsOfNone(added, q);
      assert TicketsOf(added, q) == [];
      assert TicketsOf(tickets + added, q) == TicketsOf(tickets, q) + [];
      assert TicketsOf(tickets, q) + [] == TicketsOf(tickets, q);
      assert ps[q] == purchases[q];
      assert Consistent(purchases[q], TicketsOf(tickets, q));
    } else {
      TicketsOfNone(tickets, q);
      TicketsOfAll(added, q);
      assert TicketsOf(tickets + added, q) == [] + added;
      assert [] + added == added;
      NewPurchaseConsistent(p, user, added);
      assert ps[q] == PlannedPurchase(p, user);
    }
  }

  lemma NewPurchaseConsistent(p: Plan, user: nat, added: seq<Ticket>)
    requires p.count >= 0 && |added| == p.count && p.benefited == (if p.pick.Some? then p.count else 0)
    requires forall i :: 0 <= i < |added| ==>
               added[i].basePrice == p.base && added[i].discount == p.discount &&
               added[i].paid == p.paid && added[i].benefit.Some? == p.pick.Some?
    ensures Consistent(PlannedPurchase(p, user), added)
  {
    UniformTotals(added, p.base, p.discount, p.paid, p.pick.Some?);
  }

  /** A valid store stays valid when menus are added. */
  lemma StoreValidMoreMenus(purchases: seq<Purchase>, tickets: seq<Ticket>, m: nat, n: nat)
    requires StoreValid(purchases, tickets, m) && m <= n
    ensures StoreValid(purchases, tickets, n)
  {
  }
}
