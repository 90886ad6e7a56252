/**
  * The cafeteria store: the configuration rows, the menus, the purchases
  * and the tickets, with the operations that change them in place —
  * `ConfiguracionMenu.get_config` and `save`, menu creation and editing
  * with their configuration update, the transactional insertion of a
  * purchase and its tickets (each through `Ticket.save`),
  * `CompraTickets.calcular_totales`, and the two purchase views.
  */
module Canteen {
  import opened Wrappers
  import Calendar
  import opened Benefits
  import opened Grants
  import opened Tickets
  import opened Menus
  import opened Eligibility
  import opened Issuance
  import Personas

  /** The configuration rows after `get_or_create(pk=1)`. */
  function ConfigsAfterGet(cs: map<nat, MenuConfig>): (r: map<nat, MenuConfig>)
    ensures 1 in r && (1 in cs ==> r == cs)
  {
    if 1 in cs then cs else cs[1 := DefaultConfig]
  }

  datatype ConfigError = ConfigExists | UnknownMenu
  datatype MenuError = MenuNotFound | InvalidMenu

  /** The checks `TipoMenuForm` makes before a menu is saved: a known kind
      and an accepted price. */
  predicate MenuFormValid(m: Menu) {
    KnownPreference(m.kind) && PriceAccepted(m.price)
  }

  /** The student a request comes from and its menu preference; empty
      when the user has no student profile. */
  function PreferenceOf(student: Option<Personas.Student>): string {
    if student.Some? then student.value.preference else ""
  }

  function PaidResolution(student: Option<Personas.Student>, gs: seq<Grant>, bs: seq<Benefit>,
                          today: Calendar.Date): Resolution {
    if student.Some? then FirstBenefit(gs, bs, student.value.id, today) else NoneFound
  }

  function FreeResolution(student: Option<Personas.Student>, gs: seq<Grant>, bs: seq<Benefit>,
                          today: Calendar.Date): Resolution {
    if student.Some? then FirstFreeBenefit(gs, bs, student.value.id, today) else NoneFound
  }

  /** The codes taken once the `k` first new tickets are in: those of the
      stored tickets and the first `k` generated ones. */
  function UsedCodes(stored: seq<Ticket>, codes: nat -> string, k: nat): set<string> {
    (set i | 0 <= i < |stored| :: stored[i].code) + (set j | 0 <= j < k :: codes(j))
  }

  lemma UsedCodesStep(stored: seq<Ticket>, codes: nat -> string, k: nat)
    ensures UsedCodes(stored, codes, k + 1) == UsedCodes(stored, codes, k) + {codes(k)}
  {
    assert (set j | 0 <= j < k + 1 :: codes(j)) == (set j | 0 <= j < k :: codes(j)) + {codes(k)};
  }

  /** The `k`-th code can be taken exactly when it is not among the codes
      already used. */
  lemma CodesFreshStep(stored: seq<Ticket>, codes: nat -> string, k: nat)
    ensures CodesFresh(stored, codes, k + 1) <==>
            CodesFresh(stored, codes, k) && codes(k) !in UsedCodes(stored, codes, k)
  {
    if codes(k) in UsedCodes(stored, codes, k) {
      if codes(k) in (set i | 0 <= i < |stored| :: stored[i].code) {
        var i :| 0 <= i < |stored| && stored[i].code == codes(k);
      } else {
        var j :| 0 <= j < k && codes(j) == codes(k);
      }
    }
  }

  lemma CodesFreshPrefix(stored: seq<Ticket>, codes: nat -> string, k: nat, n: nat)
    requires k <= n
    ensures CodesFresh(stored, codes, n) ==> CodesFresh(stored, codes, k)
  {
  }

  /** One turn of the ticket loop: the next ticket carries the next code;
      a code already used rules out every longer run, a fresh one extends
      the planned tickets, the used codes and the freshness by one. */
  lemma InsertStep(p: Plan, user: nat, purchase: nat, validUntil: Calendar.Date,
                   stored: seq<Ticket>, codes: nat -> string, k: nat, n: nat)
    requires k < n && CodesFresh(stored, codes, k)
    ensures NthPlanned(p, user, purchase, validUntil, |stored|, codes, k).code == codes(k)
    ensures codes(k) in UsedCodes(stored, codes, k) ==> !CodesFresh(stored, codes, n)
    ensures codes(k) !in UsedCodes(stored, codes, k) ==>
              CodesFresh(stored, codes, k + 1) &&
              UsedCodes(stored, codes, k + 1) == UsedCodes(stored, codes, k) + {codes(k)} &&
              PlannedTickets(p, user, purchase, validUntil, |stored|, codes, k + 1) ==
                PlannedTickets(p, user, purchase, validUntil, |stored|, codes, k) +
                [NthPlanned(p, user, purchase, validUntil, |stored|, codes, k)]
  {
    CodesFreshStep(stored, codes, k);
    CodesFreshPrefix(stored, codes, k + 1, n);
    UsedCodesStep(stored, codes, k);
    PlannedTicketsStep(p, user, purchase, validUntil, |stored|, codes, k);
  }

  /** The ticket loop of the purchase transaction: the `k`-th ticket takes
      the `k`-th generated code and the number after the `stored` tickets
      and those inserted before it; a code already taken makes the insert
      fail (`ok` false), otherwise `added` holds the planned tickets. */
  method InsertTickets(p: Plan, user: nat, purchase: nat, validUntil: Calendar.Date,
                       stored: seq<Ticket>, codes: nat -> string)
    returns (ok: bool, added: seq<Ticket>)
    requires p.count >= 0
    ensures ok == CodesFresh(stored, codes, p.count)
    ensures ok ==> added == PlannedTickets(p, user, purchase, validUntil, |stored|, codes, p.count)
  {
    var used := UsedCodes(stored, codes, 0);
    added := [];
    var k := 0;
    while k < p.count
      invariant 0 <= k <= p.count
      invariant added == PlannedTickets(p, user, purchase, validUntil, |stored|, codes, k)
      invariant used == UsedCodes(stored, codes, k)
      invariant CodesFresh(stored, codes, k)
    {
      var t := NthPlanned(p, user, purchase, validUntil, |stored|, codes, k);
      InsertStep(p, user, purchase, validUntil, stored, codes, k, p.count);
      if t.code in used {
        return false, added;
      }
      added := added + [t];
      used := used + {t.code};
      k := k + 1;
    }
    ok := true;
  }

  /** The transaction of both purchase views: insert the purchase, then
      each ticket through `Ticket.save`, taking the `k`-th generated code;
      a refused insert rolls the whole transaction back. */
  method Transact(user: nat, p: Plan, purchases: seq<Purchase>, tickets: seq<Ticket>, menuCount: nat,
                  today: Calendar.Date, codes: nat -> string)
    returns (r: Result<nat, IssueError>, ps: seq<Purchase>, ts: seq<Ticket>)
    requires StoreValid(purchases, tickets, menuCount) && WellFormed(p, menuCount) && Calendar.Valid(today)
    ensures StoreValid(ps, ts, menuCount)
    ensures r == ExecResult(p, purchases, tickets, today, codes)
    ensures (ps, ts) == ExecState(p, user, purchases, tickets, today, codes)
  {
    if p.count < 0 {
      ExecRefusedKeepsState(p, user, purchases, tickets, today, codes);
      return Err(NegativeQuantity), purchases, tickets;
    }
    var validUntil := Calendar.AddDays(today, ValidityDays);
    if validUntil.None? {
      ExecRefusedKeepsState(p, user, purchases, tickets, today, codes);
      return Err(DateOverflow), purchases, tickets;
    }
    var pid := |purchases|;
    var ok, added := InsertTickets(p, user, pid, validUntil.value, tickets, codes);
    if !ok {
      ExecRefusedKeepsState(p, user, purchases, tickets, today, codes);
      return Err(DuplicateCode), purchases, tickets;
    }
    ExecCommits(p, user, purchases, tickets, menuCount, today, codes, added);
    r, ps, ts := Ok(pid), purchases + [PlannedPurchase(p, user)], tickets + added;
  }

  /** The loop of `calcular_totales` over the tickets of purchase `q`:
      count, sum the three prices and count the benefited ones. */
  method SumTickets(tickets: seq<Ticket>, q: nat) returns (r: Totals)
    ensures r == TotalsOf(TicketsOf(tickets, q))
  {
    var count: nat := 0;
    var subtotal := 0.0;
    var discounts := 0.0;
    var paid := 0.0;
    var benefited: nat := 0;
    var i := 0;
    while i < |tickets|
      invariant 0 <= i <= |tickets|
      invariant Totals(count, subtotal, discounts, paid, benefited) == TotalsOf(TicketsOf(tickets[..i], q))
    {
      assert tickets[..i + 1][..i] == tickets[..i];
      var t := tickets[i];
      if t.purchase == Some(q) {
        count := count + 1;
        subtotal := subtotal + t.basePrice;
        discounts := discounts + t.discount;
        paid := paid + t.paid;
        if t.benefit.Some? {
          benefited := benefited + 1;
        }
      }
      i := i + 1;
    }
    assert tickets[..i] == tickets;
    r := Totals(count, subtotal, discounts, paid, benefited);
  }

  /** In a valid store, rewriting a purchase's aggregates from its tickets
      writes back the values it already holds. */
  lemma RecomputeKeepsValid(purchases: seq<Purchase>, tickets: seq<Ticket>, menuCount: nat, q: nat)
    requires StoreValid(purchases, tickets, menuCount) && q < |purchases|
    ensures purchases[q := ApplyTotals(purchases[q], TotalsOf(TicketsOf(tickets, q)))] == purchases
  {
    assert Consistent(purchases[q], TicketsOf(tickets, q));
  }

  class Canteen {
    var configs: map<nat, MenuConfig>
    var menus: seq<Menu>
    var purchases: seq<Purchase>
    var tickets: seq<Ticket>

    /** At most the configuration row 1 exists and it names stored menus;
        the purchases and tickets satisfy `StoreValid`. */
    ghost predicate Valid()
      reads this
    {
      (forall k :: k in configs ==> k == 1 && SlotsInRange(configs[k], |menus|)) &&
      StoreValid(purchases, tickets, |menus|)
    }

    constructor ()
      ensures Valid()
      ensures configs == map[] && menus == [] && purchases == [] && tickets == []
    {
      configs := map[];
      menus := [];
      purchases := [];
      tickets := [];
    }

    /** `ConfiguracionMenu.get_config`: the row with key 1, created with
        the defaults when absent; a second call changes nothing and
        returns the same row. */
    method GetConfig() returns (c: MenuConfig)
      requires Valid()
      modifies this
      ensures Valid()
      ensures configs == ConfigsAfterGet(old(configs)) && c == configs[1]
      ensures old(1 in configs) ==> configs == old(configs) && c == old(configs)[1]
      ensures menus == old(menus) && purchases == old(purchases) && tickets == old(tickets)
    {
      if 1 !in configs {
        configs := configs[1 := DefaultConfig];
      }
      c := configs[1];
    }

    /** `ConfiguracionMenu.save` of a row without a key: refused when a row
        exists; otherwise the row is stored under key 1, provided the menus
        it names exist. */
    method SaveNewConfig(c: MenuConfig) returns (r: Result<nat, ConfigError>)
      requires Valid()
      modifies this
      ensures Valid()
      ensures |old(configs)| > 0 ==> r == Err(ConfigExists) && configs == old(configs)
      ensures |old(configs)| == 0 && !SlotsInRange(c, |menus|) ==> r == Err(UnknownMenu) && configs == old(configs)
      ensures |old(configs)| == 0 && SlotsInRange(c, |menus|) ==> r == Ok(1) && configs == map[1 := c]
      ensures menus == old(menus) && purchases == old(purchases) && tickets == old(tickets)
    {
      if |configs| > 0 {
        return Err(ConfigExists);
      }
      if !SlotsInRange(c, |menus|) {
        return Err(UnknownMenu);
      }
      configs := map[1 := c];
      r := Ok(1);
    }

    /** `crear_menu`: a valid menu is stored under the next key and, when
        it is an active common or vegetarian menu, takes that slot of the
        configuration (which `get_config` creates first if needed). */
    method CreateMenu(m: Menu) returns (r: Result<nat, MenuError>)
      requires Valid()
      modifies this
      ensures Valid()
      ensures !MenuFormValid(m) ==> r == Err(InvalidMenu) && configs == old(configs) && menus == old(menus)
      ensures MenuFormValid(m) ==>
                r == Ok(|old(menus)|) && menus == old(menus) + [m] &&
                configs == ConfigsAfterGet(old(configs))[1 := ConfigAfterCreate(ConfigsAfterGet(old(configs))[1], |old(menus)|, m)]
      ensures purchases == old(purchases) && tickets == old(tickets)
    {
      if !MenuFormValid(m) {
        return Err(InvalidMenu);
      }
      var id := |menus|;
      menus := menus + [m];
      StoreValidMoreMenus(purchases, tickets, id, |menus|);
      var c := GetConfig();
      configs := configs[1 := ConfigAfterCreate(c, id, m)];
      r := Ok(id);
    }

    /** `editar_menu`: menu `id` is replaced by a valid `m`, and the
        configuration follows it: an active common or vegetarian menu takes
        its slot and an inactive one leaves the slot it held. */
    method EditMenu(id: nat, m: Menu) returns (r: Result<nat, MenuError>)
      requires Valid()
      modifies this
      ensures Valid()
      ensures id >= |old(menus)| ==> r == Err(MenuNotFound) && configs == old(configs) && menus == old(menus)
      ensures id < |old(menus)| && !MenuFormValid(m) ==>
                r == Err(InvalidMenu) && configs == old(configs) && menus == old(menus)
      ensures id < |old(menus)| && MenuFormValid(m) ==>
                r == Ok(id) && menus == old(menus)[id := m] &&
                configs == ConfigsAfterGet(old(configs))[1 := ConfigAfterEdit(ConfigsAfterGet(old(configs))[1], id, m)]
      ensures purchases == old(purchases) && tickets == old(tickets)
    {
      if id >= |menus| {
        return Err(MenuNotFound);
      }
      if !MenuFormValid(m) {
        return Err(InvalidMenu);
      }
      menus := menus[id := m];
      var c := GetConfig();
      configs := configs[1 := ConfigAfterEdit(c, id, m)];
      r := Ok(id);
    }

    /** The transaction of both purchase views, applied to the stored
        purchases and tickets. */
    method ExecutePlan(user: nat, p: Plan, today: Calendar.Date, codes: nat -> string)
      returns (r: Result<nat, IssueError>)
      requires Valid() && WellFormed(p, |menus|) && Calendar.Valid(today)
      modifies this
      ensures Valid()
      ensures configs == old(configs) && menus == old(menus)
      ensures r == ExecResult(p, old(purchases), old(tickets), today, codes)
      ensures (purchases, tickets) == ExecState(p, user, old(purchases), old(tickets), today, codes)
    {
      var ps, ts;
      r, ps, ts := Transact(user, p, purchases, tickets, |menus|, today, codes);
      purchases, tickets := ps, ts;
    }

    /** `CompraTickets.calcular_totales`: purchase `q` takes the aggregates
        of its tickets. On a valid store this changes nothing. */
    method RecomputeTotals(q: nat)
      requires q < |purchases|
      modifies this
      ensures purchases == old(purchases)[q := ApplyTotals(old(purchases)[q], TotalsOf(TicketsOf(tickets, q)))]
      ensures configs == old(configs) && menus == old(menus) && tickets == old(tickets)
      ensures old(Valid()) ==> Valid() && purchases == old(purchases)
    {
      var totals := SumTickets(tickets, q);
      if Valid() {
        RecomputeKeepsValid(purchases, tickets, |menus|, q);
      }
      purchases := purchases[q := ApplyTotals(purchases[q], totals)];
    }

    /** `comprar_tickets` on a POST: resolve the benefit, decide the plan
        from the configuration and the preference, and carry it out. */
    method BuyTicket(user: nat, student: Option<Personas.Student>, grants: seq<Grant>, benefits: seq<Benefit>,
                     today: Calendar.Date, codes: nat -> string)
      returns (r: Result<nat, IssueError>)
      requires Valid() && Calendar.Valid(today)
      modifies this
      ensures Valid()
      ensures configs == ConfigsAfterGet(old(configs)) && menus == old(menus)
      ensures var plan := PaidPlan(configs[1], menus, PreferenceOf(student),
                                   PaidResolution(student, grants, benefits, today));
              (plan.Err? ==> r == Err(plan.error) && purchases == old(purchases) && tickets == old(tickets)) &&
              (plan.Ok? ==> r == ExecResult(plan.value, old(purchases), old(tickets), today, codes) &&
                            (purchases, tickets) == ExecState(plan.value, user, old(purchases), old(tickets), today, codes))
    {
      var config := GetConfig();
      var res := NoneFound;
      if student.Some? {
        var free;
        res, free := ResolvePaid(grants, benefits, student.value.id, today);
      }
      var plan := PaidPlan(config, menus, PreferenceOf(student), res);
      if plan.Err? {
        return Err(plan.error);
      }
      r := ExecutePlan(user, plan.value, today, codes);
    }

    /** `generar_ticket_gratuito` on a POST with the requested quantity, the
        celiac checkbox and whether a celiac form was attached. */
    method GenerateFreeTickets(user: nat, student: Option<Personas.Student>, grants: seq<Grant>,
                               benefits: seq<Benefit>, quantity: int, celiac: bool, formAttached: bool,
                               today: Calendar.Date, codes: nat -> string)
      returns (r: Result<nat, IssueError>)
      requires Valid() && Calendar.Valid(today)
      modifies this
      ensures Valid()
      ensures configs == ConfigsAfterGet(old(configs)) && menus == old(menus)
      ensures var plan := FreePlan(configs[1], menus, PreferenceOf(student),
                                   FreeResolution(student, grants, benefits, today), quantity, celiac, formAttached);
              (plan.Err? ==> r == Err(plan.error) && purchases == old(purchases) && tickets == old(tickets)) &&
              (plan.Ok? ==> r == ExecResult(plan.value, old(purchases), old(tickets), today, codes) &&
                            (purchases, tickets) == ExecState(plan.value, user, old(purchases), old(tickets), today, codes))
    {
      var config := GetConfig();
      var res := NoneFound;
      if student.Some? {
        res := ResolveFree(grants, benefits, student.value.id, today);
      }
      var plan := FreePlan(config, menus, PreferenceOf(student), res, quantity, celiac, formAttached);
      if plan.Err? {
        return Err(plan.error);
      }
      r := ExecutePlan(user, plan.value, today, codes);
    }
  }
}
