/**
  * Menus (`TipoMenu`) and the single menu configuration
  * (`ConfiguracionMenu`): the four configured slots, how each issuance
  * flow maps a student's preference to a slot, and how creating or
  * editing a menu rewrites the configuration.
  */
module Menus {
  import opened Wrappers
  import opened Text

  /** A menu row; `kind` is one of the four `tipo` choices. */
  datatype Menu = Menu(kind: string, name: string, price: real, active: bool)

  /** The configuration row: a menu key (or none) per slot, and whether a
      celiac form must accompany a celiac request in the free flow. */
  datatype MenuConfig = MenuConfig(
    common: Option<nat>,
    vegetarian: Option<nat>,
    celiacCommon: Option<nat>,
    celiacVegetarian: Option<nat>,
    requiresCeliacForm: bool)

  /** The row `get_or_create` makes: every slot empty, the form required. */
  const DefaultConfig: MenuConfig := MenuConfig(None, None, None, None, true)

  const Common: string := "comun"
  const Vegetarian: string := "vegetariano"
  const CeliacCommon: string := "celiaco_comun"
  const CeliacVegetarian: string := "celiaco_vegetariano"

  /** The four menu preferences a student can hold. */
  predicate KnownPreference(pref: string) {
    pref == Common || pref == Vegetarian || pref == CeliacCommon || pref == CeliacVegetarian
  }

  /** The paid flow's result of mapping a preference: an unknown preference
      is refused, a known one selects its slot, which may be empty. */
  datatype SlotChoice = UnknownPreference | Slot(menu: Option<nat>)

  function PaidFlowSlot(c: MenuConfig, pref: string): (r: SlotChoice)
    ensures r.Slot? <==> KnownPreference(pref)
  {
    if pref == Common then Slot(c.common)
    else if pref == Vegetarian then Slot(c.vegetarian)
    else if pref == CeliacCommon then Slot(c.celiacCommon)
    else if pref == CeliacVegetarian then Slot(c.celiacVegetarian)
    else UnknownPreference
  }

  /** All four slots hold a menu, and no menu sits in two slots. */
  predicate DistinctSlots(c: MenuConfig) {
    c.common.Some? && c.vegetarian.Some? && c.celiacCommon.Some? && c.celiacVegetarian.Some? &&
    c.common != c.vegetarian && c.common != c.celiacCommon && c.common != c.celiacVegetarian &&
    c.vegetarian != c.celiacCommon && c.vegetarian != c.celiacVegetarian &&
    c.celiacCommon != c.celiacVegetarian
  }

  /** No two preferences share a slot: in a configuration whose four slots
      hold four different menus, different known preferences are served
      different menus. */
  lemma PaidFlowSlotsDistinct(c: MenuConfig, p: string, q: string)
    requires DistinctSlots(c)
    requires KnownPreference(p) && KnownPreference(q) && p != q
    ensures PaidFlowSlot(c, p) != PaidFlowSlot(c, q)
  {
  }

  /** The free flow's mapping as the source writes it: `comun` selects the
      common slot and every other preference the vegetarian one. */
  function FreeFlowSlotAsWritten(c: MenuConfig, pref: string): (r: Option<nat>)
    ensures pref != Common ==> r == c.vegetarian
  {
    if pref == Common then c.common else c.vegetarian
  }

  /** A celiac-common student in the free flow is handed the vegetarian
      menu even when a celiac-common menu is configured. */
  lemma FreeFlowServesVegetarianToCeliac()
    ensures var c := MenuConfig(Some(1), Some(2), Some(3), Some(4), true);
            FreeFlowSlotAsWritten(c, CeliacCommon) == Some(2) &&
            PaidFlowSlot(c, CeliacCommon) == Slot(Some(3))
  {
  }

  /** The free flow's mapping as evidently intended: the paid flow's
      mapping, falling back to the vegetarian slot for an unknown
      preference as the source does. */
  function FreeFlowSlot(c: MenuConfig, pref: string): Option<nat> {
    match PaidFlowSlot(c, pref)
    case Slot(m) => m
    case UnknownPreference => c.vegetarian
  }

  /** The corrected mapping agrees with the paid flow on every known
      preference, and with the source's mapping on every preference that
      is not celiac. */
  lemma FreeFlowSlotCorrected(c: MenuConfig, pref: string)
    ensures KnownPreference(pref) ==> PaidFlowSlot(c, pref) == Slot(FreeFlowSlot(c, pref))
    ensures pref != CeliacCommon && pref != CeliacVegetarian ==>
              FreeFlowSlot(c, pref) == FreeFlowSlotAsWritten(c, pref)
  {
  }

  /** `requiere_menu_celiaco` on a paid-flow ticket. */
  predicate CeliacPreference(pref: string) {
    StartsWith(pref, "celiaco")
  }

  /** Exactly the two celiac preferences among the known ones are celiac. */
  lemma CeliacPreferences(pref: string)
    requires KnownPreference(pref)
    ensures CeliacPreference(pref) <==> pref == CeliacCommon || pref == CeliacVegetarian
  {
    if pref == Vegetarian {
      assert pref[0] == 'v';
    } else if pref == CeliacCommon || pref == CeliacVegetarian {
      assert pref[..7] == "celiaco";
    }
  }

  /** `TipoMenuForm.clean_precio`: a truthy price that is not positive is refused. */
  predicate PriceAccepted(price: real) {
    !(price != 0.0 && price <= 0.0)
  }

  /** The price rule accepts exactly the non-negative prices: zero passes
      because it is falsy. */
  lemma PriceAcceptedIffNonNegative(price: real)
    ensures PriceAccepted(price) <==> price >= 0.0
    ensures PriceAccepted(0.0)
  {
  }

  /** The configuration after `crear_menu` saved menu `id`: an active
      common or vegetarian menu takes its slot. */
  function ConfigAfterCreate(c: MenuConfig, id: nat, m: Menu): (r: MenuConfig)
    ensures r.celiacCommon == c.celiacCommon && r.celiacVegetarian == c.celiacVegetarian
    ensures r.requiresCeliacForm == c.requiresCeliacForm
    ensures m.active && m.kind == Common ==> r.common == Some(id) && r.vegetarian == c.vegetarian
    ensures m.active && m.kind == Vegetarian ==> r.vegetarian == Some(id) && r.common == c.common
    ensures !(m.active && (m.kind == Common || m.kind == Vegetarian)) ==> r == c
  {
    if m.kind == Common && m.active then c.(common := Some(id))
    else if m.kind == Vegetarian && m.active then c.(vegetarian := Some(id))
    else c
  }

  /** The configuration after `editar_menu` saved menu `id` as `m`: as on
      creation, and besides a menu of kind common or vegetarian that is no
      longer active is removed from its slot if it held it. */
  function ConfigAfterEdit(c: MenuConfig, id: nat, m: Menu): (r: MenuConfig)
    ensures r.celiacCommon == c.celiacCommon && r.celiacVegetarian == c.celiacVegetarian
    ensures r.requiresCeliacForm == c.requiresCeliacForm
    ensures m.active ==> r == ConfigAfterCreate(c, id, m)
    ensures !m.active && m.kind == Common && c.common == Some(id) ==> r == c.(common := None)
    ensures !m.active && m.kind == Vegetarian && c.vegetarian == Some(id) ==> r == c.(vegetarian := None)
  {
    if m.kind == Common && m.active then c.(common := Some(id))
    else if m.kind == Vegetarian && m.active then c.(vegetarian := Some(id))
    else if m.kind == Common && c.common == Some(id) then c.(common := None)
    else if m.kind == Vegetarian && c.vegetarian == Some(id) then c.(vegetarian := None)
    else c
  }

  /** After an edit, the common and vegetarian slots never hold an inactive
      menu of their own kind under the edited key, and a slot the edit
      does not concern keeps its menu. */
  lemma EditNeverKeepsDeactivated(c: MenuConfig, id: nat, m: Menu)
    requires !m.active && (m.kind == Common || m.kind == Vegetarian)
    ensures m.kind == Common ==> ConfigAfterEdit(c, id, m).common != Some(id)
    ensures m.kind == Vegetarian ==> ConfigAfterEdit(c, id, m).vegetarian != Some(id)
    ensures m.kind == Common ==> ConfigAfterEdit(c, id, m).vegetarian == c.vegetarian
    ensures m.kind == Vegetarian ==> ConfigAfterEdit(c, id, m).common == c.common
  {
  }

  /** A menu whose kind changed keeps its old slot: the slot check looks
      only at the menu's current kind. */
  lemma RetypedMenuKeepsOldSlot()
    ensures var c := MenuConfig(Some(7), None, None, None, true);
            ConfigAfterEdit(c, 7, Menu(Vegetarian, "x", 1.0, false)).common == Some(7)
  {
  }
}
