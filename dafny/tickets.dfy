/**
  * Tickets and purchases (`Ticket`, `CompraTickets`): the record layout,
  * the `TCK-%06d` ticket number, the identifier assignment done by
  * `Ticket.save`, the derived properties `es_gratuito` and
  * `porcentaje_descuento_aplicado`, and the aggregate that
  * `calcular_totales` recomputes from a purchase's tickets.
  */
module Tickets {
  import opened Wrappers
  import opened Text
  import Calendar

  datatype TicketState = Pendiente | Pagado | Usado

  /** `metodo_pago`: blank by default, `efectivo` or `beca_gratuita` when issued. */
  datatype PaymentMethod = Unset | Efectivo | BecaGratuita

  /** A ticket row. `menu`, `benefit`, `grant` and `purchase` are primary
      keys of the related rows; `celiacForm` records whether a celiac
      form file was attached. */
  datatype Ticket = Ticket(
    user: nat,
    menu: nat,
    code: string,
    number: string,
    state: TicketState,
    basePrice: real,
    discount: real,
    paid: real,
    benefit: Option<nat>,
    grant: Option<nat>,
    validUntil: Option<Calendar.Date>,
    purchase: Option<nat>,
    requiresCeliacMenu: bool,
    celiacForm: bool)

  /** A purchase row with its stored aggregates. */
  datatype Purchase = Purchase(
    user: nat,
    count: int,
    subtotal: real,
    totalDiscounts: real,
    totalPaid: real,
    payment: PaymentMethod,
    benefited: int)

  const NumberPrefix: string := "TCK-"

  /** `f"TCK-{n:06d}"`. */
  function TicketNumber(n: nat): (s: string)
    ensures StartsWith(s, NumberPrefix)
    ensures |s| >= 10
  {
    NumberPrefix + ZeroPad(NatToString(n), 6)
  }

  /** Reads a ticket number back: the prefix followed by at least one digit. */
  function ParseTicketNumber(s: string): Option<nat> {
    if StartsWith(s, NumberPrefix) && |s| > |NumberPrefix|
       && forall i :: |NumberPrefix| <= i < |s| ==> IsDigit(s[i])
    then Some(ParseDigits(s[|NumberPrefix|..]))
    else None
  }

  /** The number encodes the counter value it was made from. */
  lemma TicketNumberRoundTrip(n: nat)
    ensures ParseTicketNumber(TicketNumber(n)) == Some(n)
  {
    var digits := NatToString(n);
    var padded := ZeroPad(digits, 6);
    var s := TicketNumber(n);
    ParseIgnoresLeadingZeros(if |digits| < 6 then 6 - |digits| else 0, digits);
    assert padded == Zeros(if |digits| < 6 then 6 - |digits| else 0) + digits;
    assert s[|NumberPrefix|..] == padded;
    ParseNatToString(n);
  }

  /** Different counter values give different ticket numbers. */
  lemma TicketNumberInjective(a: nat, b: nat)
    requires TicketNumber(a) == TicketNumber(b)
    ensures a == b
  {
    TicketNumberRoundTrip(a);
    TicketNumberRoundTrip(b);
  }

  /** The field assignment `Ticket.save` performs before inserting, given the
      fresh identifier the uuid generator would produce and the number of
      tickets already stored. A value already present is never replaced. */
  function WithIdentifiers(t: Ticket, freshCode: string, stored: nat): (r: Ticket)
    ensures t.code != "" ==> r.code == t.code
    ensures t.code == "" ==> r.code == freshCode
    ensures t.number != "" ==> r.number == t.number
    ensures t.number == "" ==> ParseTicketNumber(r.number) == Some(stored + 1)
    ensures r.(code := t.code, number := t.number) == t
  {
    TicketNumberRoundTrip(stored + 1);
    t.(code := if t.code == "" then freshCode else t.code,
       number := if t.number == "" then TicketNumber(stored + 1) else t.number)
  }

  /** `es_gratuito`. */
  predicate IsFreeTicket(t: Ticket) {
    t.paid == 0.0 && t.benefit.Some?
  }

  /** `porcentaje_descuento_aplicado`. */
  function AppliedPercent(t: Ticket): real {
    if t.basePrice > 0.0 then (t.discount / t.basePrice) * 100.0 else 0.0
  }

  /** The five values `calcular_totales` writes back onto a purchase. */
  datatype Totals = Totals(count: nat, subtotal: real, discounts: real, paid: real, benefited: nat)

  /** The aggregate over a purchase's tickets, in store order. */
  function TotalsOf(ts: seq<Ticket>): (r: Totals)
    ensures r.count == |ts|
    ensures r.benefited <= r.count
  {
    if ts == [] then Totals(0, 0.0, 0.0, 0.0, 0)
    else
      var rest := TotalsOf(ts[..|ts| - 1]);
      var t := ts[|ts| - 1];
      Totals(rest.count + 1,
             rest.subtotal + t.basePrice,
             rest.discounts + t.discount,
             rest.paid + t.paid,
             rest.benefited + (if t.benefit.Some? then 1 else 0))
  }

  /** The number of tickets that carry a benefit, counted directly. */
  function CountBenefited(ts: seq<Ticket>): nat {
    |set i | 0 <= i < |ts| && ts[i].benefit.Some?|
  }

  /** Totals over a concatenation are the sums of the totals of the parts. */
  lemma {:induction false} TotalsAppend(a: seq<Ticket>, b: seq<Ticket>)
    ensures TotalsOf(a + b) ==
            Totals(TotalsOf(a).count + TotalsOf(b).count,
                   TotalsOf(a).subtotal + TotalsOf(b).subtotal,
                   TotalsOf(a).discounts + TotalsOf(b).discounts,
                   TotalsOf(a).paid + TotalsOf(b).paid,
                   TotalsOf(a).benefited + TotalsOf(b).benefited)
    decreases |b|
  {
    if b != [] {
      assert (a + b)[..|a + b| - 1] == a + b[..|b| - 1];
      TotalsAppend(a, b[..|b| - 1]);
    } else {
      assert a + b == a;
    }
  }

  /** `n` tickets with the same prices and benefit, as both issuance flows
      create them, total `n` times each price; all of them or none count as
      benefited. */
  lemma {:induction false} UniformTotals(ts: seq<Ticket>, base: real, discount: real, paid: real, benefit: bool)
    requires forall i :: 0 <= i < |ts| ==>
               ts[i].basePrice == base && ts[i].discount == discount &&
               ts[i].paid == paid && ts[i].benefit.Some? == benefit
    ensures TotalsOf(ts) == Totals(|ts|, |ts| as real * base, |ts| as real * discount,
                                   |ts| as real * paid, if benefit then |ts| else 0)
  {
    if ts != [] {
      UniformTotals(ts[..|ts| - 1], base, discount, paid, benefit);
      var k := (|ts| - 1) as real;
      assert (k + 1.0) * base == k * base + base;
      assert (k + 1.0) * discount == k * discount + discount;
      assert (k + 1.0) * paid == k * paid + paid;
    }
  }

  /** The incremental benefited count is the number of tickets with a benefit. */
  lemma {:induction false} BenefitedIsCount(ts: seq<Ticket>)
    ensures TotalsOf(ts).benefited == CountBenefited(ts)
  {
    if ts != [] {
      var p := ts[..|ts| - 1];
      BenefitedIsCount(p);
      assert forall i :: 0 <= i < |p| ==> p[i] == ts[i];
      var sp := set i | 0 <= i < |p| && p[i].benefit.Some?;
      var s := set i | 0 <= i < |ts| && ts[i].benefit.Some?;
      if ts[|ts| - 1].benefit.Some? {
        assert s == sp + {|ts| - 1};
      } else {
        assert s == sp;
      }
    }
  }

  /** A purchase whose stored aggregates equal `t`; `calcular_totales`
      rewrites exactly these fields and keeps the user and payment method. */
  function ApplyTotals(p: Purchase, t: Totals): (r: Purchase)
    ensures r.user == p.user && r.payment == p.payment
    ensures r.count == t.count && r.benefited == t.benefited
    ensures r.subtotal == t.subtotal && r.totalDiscounts == t.discounts && r.totalPaid == t.paid
  {
    p.(count := t.count, subtotal := t.subtotal, totalDiscounts := t.discounts,
       totalPaid := t.paid, benefited := t.benefited)
  }

  /** The stored aggregates of `p` agree with the tickets `ts`. */
  predicate Consistent(p: Purchase, ts: seq<Ticket>) {
    ApplyTotals(p, TotalsOf(ts)) == p
  }

  /** For a ticket priced from a base and a discount that add up, the
      applied percentage is the discounted share of the base. */
  lemma AppliedPercentShare(t: Ticket)
    requires t.basePrice > 0.0 && t.discount + t.paid == t.basePrice
    ensures t.paid == 0.0 ==> AppliedPercent(t) == 100.0
    ensures t.discount == 0.0 ==> AppliedPercent(t) == 0.0
    ensures 0.0 <= t.discount <= t.basePrice ==> 0.0 <= AppliedPercent(t) <= 100.0
  {
    var q := t.discount / t.basePrice;
    if 0.0 <= t.discount <= t.basePrice {
      assert q * t.basePrice == t.discount;
      assert 0.0 <= q <= 1.0;
    }
  }
}
