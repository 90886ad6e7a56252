# SecBienestar cafeteria engine — a Dafny model

SecBienestar is a student-welfare system. Students hold scholarships
(`Beca`) through grants (`PersonaBeca`); a scholarship may carry a
cafeteria benefit (`BeneficioComedor`) that is free, a percentage
discount or nothing. Students buy meal tickets in a paid flow
(`comprar_tickets`) or, with a free benefit, generate them in a free flow
(`generar_ticket_gratuito`). Around that engine sit several smaller pieces:

- a cascading rule that gives a `Residencia` grantee a `Comedor` grant;
- the scholarship catalogue and grant administration;
- the menu configuration;
- the validation rules of the models and forms;
- the access gates and onboarding routing;
- a menu-preference change limited to once per calendar year;
- the administration screens of students;
- the change log kept for edits of a person;
- the validity of health coverages.

This project models that core in Dafny and proves what the code promises.

Modules (all under `dafny/`):

| module | models |
|---|---|
| `Calendar` | proleptic Gregorian dates, ordinals, `relativedelta(years=1)`, `timedelta(days=n)` |
| `Text` | lower/upper casing, digits, zero padding, substring search |
| `Benefits` | `BeneficioComedor` pricing and its label |
| `Tickets` | `Ticket`/`CompraTickets` rows, `Ticket.save` identifiers, `calcular_totales` |
| `Menus` | the menu configuration slots, the preference-to-menu mappings, the menu form price rule |
| `Eligibility` | the grant scans of both ticket flows |
| `Issuance` | the decisions of both ticket flows and the all-or-nothing transaction |
| `Canteen` | class `Canteen`: the store of configuration, menus, purchases and tickets |
| `Personas` | `Persona` and `PersonaEstudiante` rules, `PersonaNoDocente.clean` |
| `Grants` | `Beca.clean`, `PersonaBeca.clean`, `unique_together`, the amount helpers |
| `GrantRegistry` | class `Registry`: the scholarship catalogue and grant store, the cascade, `asignar_beca`, `editar_beca`, `eliminar_beca_catalogo` |
| `Certificates` | `CertificadoCeliaco` validity and dates, the carousel image filter |
| `ComedorForms` | `BeneficioComedorForm`, `BecaForm` and the date-range forms |
| `Access` | `admin_comedor_required`, `auditor_required` |
| `Health` | `CoberturaSalud.esta_vigente` |
| `PersonaAdmin` | the celiac columns and inline choice of the person administration |
| `Accounts` | onboarding routing, role selection, the yearly menu limit, the profile forms |
| `Changelog` | `registrar_cambio` and the change collection of `editar_persona` |
| `Directory` | class `Directory`: users' people and student profiles, sign-up, role choice, preference change, admin save, change log |

Conventions of the model:

- Money is an exact `real`; the source's `Decimal` arithmetic does not round.
- Today's date is a parameter, and every clock reading of one request is
  that same date.
- Dates are `Calendar.Date` values.
- A `uuid4()` code is taken from an oracle `codes: nat -> string`. An
  insert whose code collides fails the transaction.
- Every store is a sequence of rows.
- A failed transaction leaves every store as it was.

## Model

| member | source | states |
|---|---|---|
| Benefits.LargerDiscountChargesLess | comedor/models.py:56-71 | On a non-negative base, a larger `descuento` percentage (up to 100, where the benefit turns free) never charges more and never discounts less |
| Benefits.NoneKindAtHundredIsFree | comedor/models.py:58-59 | A `ninguno` benefit at 100% is still free |
| Benefits.PriceSplitsBase | comedor/models.py:56-71 | Final price plus discount equals the base exactly, for every benefit |
| Benefits.PriceBounds | comedor/models.py:56-71 | With a percentage in [0, 100] and a non-negative base, both amounts lie in [0, base] |
| Benefits.LabelMatchesPricing | comedor/models.py:49-71 | For a positive base, `__str__` says free exactly when nothing is paid, a percentage exactly when part is discounted, no benefit exactly when nothing is discounted |
| Tickets.TicketNumber | comedor/models.py:249-251 | The number starts with `TCK-` and is at least ten characters long (six-digit padding) |
| Tickets.TicketNumberRoundTrip | comedor/models.py:249-251 | Reading a ticket number back gives the counter value it was made from |
| Tickets.TicketNumberInjective | comedor/models.py:249-251 | Different counter values give different ticket numbers |
| Tickets.WithIdentifiers | comedor/models.py:243-251 | `save` fills an empty code with the fresh identifier and an empty number with count+1; a value already present is kept; no other field changes |
| Tickets.TotalsOf | comedor/models.py:344-351 | The aggregate counts every ticket and never counts more benefited tickets than tickets |
| Tickets.TotalsAppend | comedor/models.py:344-351 | Totals of a concatenation are the field-wise sums of the totals of the parts |
| Tickets.UniformTotals | comedor/views.py:118-130 | n tickets with the same prices total n times each price, and all or none of them are benefited |
| Tickets.BenefitedIsCount | comedor/models.py:351 | The benefited count is the number of tickets with a benefit attached |
| Tickets.ApplyTotals | comedor/models.py:344-352 | `calcular_totales` rewrites exactly the five aggregate fields and keeps user and payment method |
| Tickets.AppliedPercentShare | comedor/models.py:291-296 | For a positive base, the applied percentage is 100 for an unpaid ticket, 0 without a discount, and within [0, 100] for a discount within the base |
| Menus.PaidFlowSlot | comedor/views.py:95-105 | The paid flow accepts exactly the four known preferences |
| Menus.PaidFlowSlotsDistinct | comedor/views.py:95-102 | When the four slots hold four different menus, two different known preferences are never served the same menu |
| Menus.FreeFlowSlotAsWritten | comedor/views.py:269-272 | As written, every preference but `comun` selects the vegetarian slot |
| Menus.FreeFlowServesVegetarianToCeliac | comedor/views.py:269-272 | As written, a `celiaco_comun` student gets the vegetarian menu although a celiac menu is configured |
| Menus.FreeFlowSlotCorrected | comedor/views.py:269-272 | The corrected free-flow mapping agrees with the paid flow on every known preference and with the source on every non-celiac one |
| Menus.CeliacPreferences | comedor/views.py:145 | Exactly `celiaco_comun` and `celiaco_vegetariano` start with `celiaco` |
| Menus.PriceAcceptedIffNonNegative | comedor/forms.py:104-108 | The price rule accepts exactly the non-negative prices; zero passes because it is falsy |
| Menus.ConfigAfterCreate | comedor/views.py:582-593 | An active `comun` or `vegetariano` menu takes its slot; nothing else changes |
| Menus.ConfigAfterEdit | comedor/views.py:616-639 | An edit sets the slot like a creation, and a menu of that kind that is no longer active is removed from the slot it held |
| Menus.EditNeverKeepsDeactivated | comedor/views.py:616-639 | After an edit, the slot of the edited menu's kind never holds it while inactive, and the other slot is untouched |
| Menus.RetypedMenuKeepsOldSlot | comedor/views.py:618-639 | A menu whose kind changed keeps the slot of its old kind: the check looks only at the current kind |
| Eligibility.ActiveBenefits | comedor/models.py:14-47 | Exactly the active benefits of the scholarship, and only stored ones |
| Eligibility.LookupActiveBenefit | comedor/views.py:50-53 | The scan returns none, the single active benefit, or the several-rows outcome on which `get` raises |
| Eligibility.ResolvePaid | comedor/views.py:40-62 | The loop picks the first candidate grant with an active benefit; its free flag holds exactly when that benefit is free |
| Eligibility.ResolveFree | comedor/views.py:241-260 | The loop picks the first candidate grant whose active benefit is free |
| Eligibility.FirstBenefitIsFirstMatch | comedor/views.py:40-62 | The pick is a stored grant that is `ACTIVA` with today within its dates, its benefit is the active benefit of its scholarship, and no earlier candidate has one |
| Eligibility.LookupFindsOwnBenefit | comedor/views.py:50-53 | The benefit found is stored, active and belongs to the grant's scholarship |
| Eligibility.NoneFoundIffNoBenefit | comedor/views.py:40-62 | Nothing is found exactly when no candidate grant's scholarship has an active benefit |
| Eligibility.OnlyCandidatesMatter | comedor/views.py:40-45 | Grants outside the filter (state, dates, student) play no part in either scan |
| Eligibility.FreeFlowPicksFree | comedor/views.py:248-258 | The free flow only picks a free benefit of a candidate grant |
| Eligibility.FreeFlagMeansSamePick | comedor/views.py:58-60 | When the paid flow's first benefit is free, the free flow picks the same benefit and grant |
| Eligibility.FlowsCanDiffer | comedor/views.py:48-60 | With a discount grant stored before a free one, the two flows pick different grants |
| Issuance.PaidPlan | comedor/views.py:87-131 | A planned paid purchase names a stored menu and counts its tickets benefited all or none |
| Issuance.FreePlan | comedor/views.py:262-308 | A planned free purchase names the stored menu the view's own mapping selects (`comun`: common slot, anything else: vegetarian slot) and counts its tickets benefited all or none |
| Issuance.PaidPlanRefusals | comedor/views.py:89-105 | The paid flow refuses exactly a raising lookup, a missing or unknown preference and an empty slot; otherwise it plans exactly one ticket |
| Issuance.PaidPlanPricing | comedor/views.py:107-149 | Prices come from the benefit or the menu; cash exactly when something is paid; benefited count 1 or 0; celiac menu exactly when the preference starts with `celiaco` |
| Issuance.FreePlanPricing | comedor/views.py:266-327 | The ticket's menu is the active common menu for `comun` and the active vegetarian menu for every other preference; it is paid 0 and discounted by the full base; every ticket is benefited; the celiac form is attached only when celiac |
| Issuance.FreeFlowNeedsVegetarianSlot | comedor/views.py:269-277 | A student whose preference is not `comun` is refused by the free flow whenever the vegetarian slot is empty, whatever celiac slot is configured |
| Issuance.FreePlanRefusals | comedor/views.py:262-291 | The free flow refuses exactly without a free benefit, when the slot the view's mapping selects (common for `comun`, vegetarian otherwise) is empty or inactive, or on a celiac request lacking a required form |
| Issuance.FreeBenefitSamePriceInBothFlows | comedor/views.py:58-69 | With a free first benefit, both flows price the ticket identically |
| Issuance.PaidPlanFreeness | comedor/views.py:107-149 | A purchase plan pays nothing with a benefit attached exactly when the benefit is free (positive price, percentage in [0, 100]), or exactly when a benefit is attached at price 0 |
| Issuance.PaidTicketFreeIffFreeBenefit | comedor/models.py:286-289 | For a positive menu price a purchased ticket is `es_gratuito` exactly when the benefit is free; at price 0 every benefited ticket is |
| Issuance.FreeTicketsAreFree | comedor/models.py:286-296 | Every free-flow ticket is `es_gratuito` and, for a positive price, 100% discounted |
| Issuance.PlannedTickets | comedor/views.py:134-149 | The k-th new ticket is the planned ticket with the k-th code and number stored+k+1 |
| Issuance.ExecAllOrNothing | comedor/views.py:87-176 | A failed transaction leaves purchases and tickets unchanged; a successful one appends one purchase and exactly its tickets, paid, priced and valid for 30 days |
| Issuance.TicketsOf | comedor/models.py:346 | A purchase's tickets are stored tickets linked to it |
| Issuance.NumbersUnique | comedor/models.py:249-251 | Ticket numbers in a valid store are unique |
| Issuance.ExecKeepsStoreValid | comedor/views.py:87-149 | Issuing keeps the store invariant: numbering by position, links, unique codes, purchase aggregates equal to `calcular_totales` |
| Issuance.ExecCommits | comedor/views.py:87-149 | A successful transaction commits exactly the planned purchase and tickets |
| Canteen.ConfigsAfterGet | comedor/models.py:140-144 | `get_config` leaves row 1 present and changes nothing when it exists |
| Canteen.InsertTickets | comedor/views.py:136-149 | The insert loop succeeds exactly when the codes are fresh, and then adds exactly the planned tickets |
| Canteen.Transact | comedor/views.py:87-149 | The transaction on the stored values: its result is `ExecResult`, the new stores are `ExecState`, and a valid store stays valid |
| Canteen.Canteen.constructor | comedor/models.py:95-133 | An empty store satisfies the invariant |
| Canteen.Canteen.GetConfig | comedor/models.py:140-144 | Returns row 1, created with defaults if absent; a second call changes nothing and returns the same row |
| Canteen.Canteen.SaveNewConfig | comedor/models.py:97-138 | Saving a new configuration while one exists is refused and changes nothing; a slot naming no stored menu is refused as the foreign-key constraint on the four slots refuses it; otherwise the configuration is stored |
| Canteen.Canteen.CreateMenu | comedor/views.py:575-595 | A valid menu is appended and the configuration becomes `ConfigAfterCreate`; an invalid one changes nothing |
| Canteen.Canteen.EditMenu | comedor/views.py:607-641 | A valid edit replaces the menu and the configuration becomes `ConfigAfterEdit`; an unknown key or invalid form changes nothing |
| Canteen.Canteen.ExecutePlan | comedor/views.py:87-149 | The stores become `ExecState` and the result is `ExecResult`: all or nothing |
| Canteen.Canteen.RecomputeTotals | comedor/models.py:344-352 | The purchase takes the aggregates of its tickets; on a valid store nothing changes |
| Canteen.SumTickets | comedor/models.py:345-350 | The loop over the stored tickets yields exactly the aggregates `TotalsOf` of the tickets of that purchase |
| Canteen.Canteen.BuyTicket | comedor/views.py:24-176 | The outcome is the paid plan for the resolved benefit, carried out all or nothing |
| Canteen.Canteen.GenerateFreeTickets | comedor/views.py:224-337 | The outcome is the free plan, with the view's own slot mapping, for the resolved free benefit, carried out all or nothing |
| Personas.TempDocument | accounts/models.py:80 | The placeholder document starts with `TEMP_` |
| Personas.VisibleName | persona/models.py:162-170 | The visible name is the perceived one exactly when it is non-empty and validated |
| Personas.FullName | persona/models.py:172-177 | The full name is the visible name, a space and the surname |
| Personas.PerceivedNameShown | persona/models.py:162-177 | An unvalidated perceived name never reaches the full name |
| Personas.ProfileCompleteness | persona/models.py:182-185 | A `TEMP_` document marks the profile incomplete; a document of digits marks it complete |
| Personas.StudentCleanAccepts | persona/models.py:369-385 | A student is accepted exactly when a celiac preference has a DDJJ and a non-Argentine student has an acceptance letter; the DDJJ is checked first |
| Personas.NationalityCaseInsensitive | persona/models.py:381 | Nationality `ARGENTINA` in any case needs no acceptance letter |
| Personas.DdjjCurrent | persona/models.py:390-396 | Unknown without an expiry date, else whether expiry is today or later |
| Personas.DdjjCurrentByDays | persona/models.py:390-396 | The DDJJ is current exactly while the days left until expiry are not negative |
| Personas.StaffDatesByDays | persona/models.py:659-663 | Employment dates are valid exactly when the end is at least one day after the start |
| Grants.ScholarshipValidAmounts | persona/models.py:219-224 | A scholarship paying an amount needs a non-zero suggested amount; one that pays nothing is always valid |
| Grants.GrantCleanAccepts | persona/models.py:478-498 | `clean` accepts exactly strictly ordered dates (when both present), at most one grantee, and a truthy amount exactly when the scholarship pays one |
| Grants.GrantCleanEdgeCases | persona/models.py:480-492 | A missing date skips the date check; an amount of 0 counts as missing |
| Grants.SameKeySymmetric | persona/models.py:473 | The uniqueness key comparison is symmetric |
| Grants.InsertKeepsUnique | persona/models.py:473 | Inserting an admissible grant keeps keys unique |
| Grants.NullStartNotUnique | persona/models.py:473 | Grants without a start date escape the constraint |
| Grants.FullCleanAccepts | persona/models.py:460-498 | `full_clean` accepts exactly a non-negative amount, a passing `clean` and a fresh key; the grant can then be stored |
| Grants.AmountToPay | persona/models.py:500-503 | The amount to pay is the assigned amount when truthy, else 0 |
| Grants.AmountToPayNonNegative | persona/models.py:460-503 | With the field's minimum of 0 the amount to pay is not negative |
| Grants.DiffersMeansBothSet | persona/models.py:505-510 | The amounts differ only when both are set and then the amount to pay is not the suggested one |
| GrantRegistry.ScholarshipOf | persona/models.py:449 | The scholarship found by key is stored with that key; none is found only when no entry has it |
| GrantRegistry.ScholarshipOfFinds | persona/models.py:449 | With unique keys a stored scholarship is found by its key |
| GrantRegistry.ComedorEntries | persona/signals.py:16 | Exactly the active entries named `Comedor` |
| GrantRegistry.AsWrittenNeverCreates | persona/signals.py:27-39 | As written the cascade never inserts: each insert of the corrected rule becomes an exception |
| GrantRegistry.AsWrittenCrashesOnFirstResidencia | persona/signals.py:27-39 | A first `Residencia` grant with both catalogue entries present: the corrected rule creates the `Comedor` grant, the code as written raises |
| GrantRegistry.CascadeTrigger | persona/signals.py:13-42 | The rule fires only on creation of a `Residencia` grant and needs exactly one active `Comedor` entry; none does nothing, several raise |
| GrantRegistry.SeededNamesNeverCascade | persona/signals.py:13-16 | With the seeded names `Beca Residencia` and `Beca Comedor` the rule never inserts |
| GrantRegistry.CascadeCopiesTrigger | persona/signals.py:30-37 | Under the intended rule (see Findings), the created grant copies student, dates and state, carries the approval date only for `APROBADA`/`ACTIVA`, and fits the uniqueness constraint |
| GrantRegistry.CascadeNoRetrigger | persona/signals.py:13-30 | Under the intended rule, the created `Comedor` grant does not fire the rule again |
| GrantRegistry.BlockingGrantBlocks | persona/signals.py:19-25 | An `ACTIVA`, `APROBADA` or `PENDIENTE` `Comedor` grant of the student stops the rule |
| GrantRegistry.OtherStatesDoNotBlock | persona/signals.py:19-23 | A grant in any other state never changes whether the rule is blocked |
| GrantRegistry.InsertKeepsValid | persona/models.py:445-473 | Inserting a grant with a fresh key, a stored scholarship and an admissible key keeps the registry valid |
| GrantRegistry.RemoveKeepsValid | comedor/views.py:944 | Deleting a grant keeps the registry valid |
| GrantRegistry.CascadeKeepsValid | persona/signals.py:13-39 | The intended rule inserts only what keeps the registry valid |
| GrantRegistry.AssignCheckRules | comedor/views.py:895-927 | An assignment is refused for a missing or inactive scholarship, for `comedor` (any case) without regular validation, or by `full_clean`; an accepted grant has the entered dates and state, the approval date exactly for `APROBADA`/`ACTIVA`, and the suggested amount by default |
| GrantRegistry.ComedorGateNames | comedor/views.py:902 | The regular-student gate applies to `Comedor` and `COMEDOR`, not to `Beca Comedor` |
| GrantRegistry.SuggestedAmountSatisfiesClean | comedor/views.py:921-922 | A valid amount-paying scholarship fills a missing amount with its suggestion, so the amount rule accepts |
| GrantRegistry.AssignEffectAfterSave | comedor/views.py:927-956 | After the checks, the cascade as written and the certificate form decide the effect: a raising cascade is reported as an error and leaves the saved grant; a refused certificate deletes it; otherwise it stays; no other grant is ever added |
| GrantRegistry.AssignmentLosesCascadeGrant | persona/signals.py:13-39 | Wherever the intended rule would add the `Comedor` grant, the assignment as written reports an error and the store gains only the saved grant |
| GrantRegistry.GrantIndex | comedor/views.py:981 | The position found holds the grant with that key; none when no grant has it |
| GrantRegistry.EditedGrantRules | comedor/views.py:1009-1016 | An edit sets the dates and state; the approval date is set only when absent and approved, and kept once set |
| GrantRegistry.EditSkipsDateOrder | comedor/views.py:1009-1018 | Saved without validation, an edit stores an end date before the start that `clean` refuses |
| GrantRegistry.ReplaceKeepsValid | comedor/views.py:1018 | Replacing a grant by one with an admissible key keeps the registry valid |
| GrantRegistry.GrantsUsing | comedor/views.py:1183 | The count is zero exactly when no grant names the scholarship |
| GrantRegistry.WithoutScholarship | comedor/views.py:1195 | Deleting the entry leaves exactly the other entries |
| GrantRegistry.BenefitsWithout | comedor/views.py:1195 | Deleting the entry deletes exactly its benefits |
| GrantRegistry.WithoutKeepsOthers | comedor/views.py:1195 | Every other key still finds the same entry |
| GrantRegistry.DeleteKeepsValid | comedor/views.py:1186-1195 | Deleting an unused entry and its benefits keeps the registry valid |
| GrantRegistry.Registry.constructor | persona/models.py:188-227 | A catalogue with attached benefits and no grants is a valid registry |
| GrantRegistry.Registry.RunCascade | persona/signals.py:7-42 | The handler as written changes nothing; its outcome is `ComedorCascadeAsWritten`, and it raises wherever the intended rule would insert |
| GrantRegistry.Registry.SaveNewGrant | persona/signals.py:7-13 | A new grant is inserted and the registry stays valid; the cascade as written then runs on it and adds nothing |
| GrantRegistry.Registry.AssignGrant | comedor/views.py:887-956 | Refused checks change nothing; otherwise the result and the store follow `AssignEffect`, with the cascade as written |
| GrantRegistry.Registry.SaveAssignment | comedor/views.py:927-956 | A raising cascade is reported as an error and leaves the saved grant; a refused certificate deletes the saved grant; otherwise the saved grant stays |
| GrantRegistry.Registry.EditGrant | comedor/views.py:979-1018 | An unknown key, a grant naming no student (the view fails reading its person) or a key collision changes nothing; otherwise the grant becomes `EditedGrant` |
| GrantRegistry.Registry.DeleteScholarship | comedor/views.py:1178-1200 | Refused while grants use it; otherwise the entry and its benefits are deleted |
| Certificates.CertificateCurrentCases | comedor/models.py:448-456 | Inactive is never current; active without expiry always; otherwise current through its expiry day |
| Certificates.CertificateCurrentEarlier | comedor/models.py:448-456 | A certificate current on a day was current on every earlier day |
| Certificates.ValidCertificateCurrentWhenIssued | comedor/models.py:458-464 | An active certificate with valid dates is current on its issue day |
| Certificates.ShownImages | comedor/views.py:373-381 | The carousel shows exactly the active images with today within their set bounds |
| Certificates.InvalidImageNeverShown | comedor/models.py:398-403 | An image whose dates its validation refuses is never shown |
| Certificates.UnboundedImageAlwaysShown | comedor/views.py:375-380 | An active image without dates is always shown |
| ComedorForms.BenefitFormAsWritten | comedor/forms.py:153-179 | The form as written raises exactly for kind `descuento` with a percentage that is missing or outside [0, 100] |
| ComedorForms.DiscountOutOfRangeRaises | comedor/forms.py:165-179 | `descuento` at 150 or at −5 makes the form raise instead of reporting the range error |
| ComedorForms.BenefitForm | comedor/forms.py:153-179 | The corrected form never raises |
| ComedorForms.BenefitFormRules | comedor/forms.py:153-179 | Agrees with the source wherever it does not raise; error-free exactly for `gratuito` at 100, `descuento` in (0, 100], `ninguno` in range; cleaned to 100 or 0 |
| ComedorForms.AcceptedBenefitPricing | comedor/forms.py:153-179 | A benefit from an error-free form prices within [0, base] and is free exactly when `gratuito` or a 100% discount |
| ComedorForms.ScholarshipFormRules | comedor/forms.py:280-294 | The form refuses exactly what `Beca.clean` refuses and clears the suggestion of a scholarship that pays nothing |
| ComedorForms.RangeAcceptedCases | comedor/forms.py:226-237 | The date-range rule of the certificate form, shared with the carousel image form (comedor/forms.py lines 52-61): a missing date skips the check; otherwise accepted exactly when the first is not after the second |
| Access.AdminComedorGateAllows | comedor/decorators.py:8-25 | A signed-in user is allowed exactly when superuser or persona role `admin_comedor`/`admin`; staff alone does not count |
| Access.AuditorGateAllows | comedor/decorators.py:28-46 | A signed-in user is allowed exactly when superuser, role `auditor`, or staff without a persona |
| Access.StaffWithPersonaDenied | comedor/decorators.py:35-44 | A staff user whose persona has another role is denied by the auditor gate |
| Access.PlainStaffNotAdmin | comedor/decorators.py:13-23 | Plain staff is denied by the cafeteria-admin gate |
| Access.LoginFirst | comedor/decorators.py:8-30 | Both gates send an anonymous user to login |
| Health.CoverageCurrent | salud/models.py:69-74 | Inactive is not current; active with a past end is not current; active with no end or a later end is current |
| Health.CoverageIgnoresStart | salud/models.py:69-74 | The verdict depends only on the active flag, the end date and today |
| Health.CoverageByDays | salud/models.py:69-74 | With an end date, current exactly while the days left are not negative; the end day is covered |
| PersonaAdmin.CeliacFlag | persona/admin.py:251-255 | 'Sí' exactly when `celiaco` occurs in the lower-cased preference |
| PersonaAdmin.DdjjStatusOf | persona/admin.py:259-273 | '-' exactly for a non-celiac preference; 'Sin DDJJ' exactly without a file; 'Pendiente' exactly when unvalidated; 'Vencida' exactly when validated and known to be expired |
| PersonaAdmin.StatusFollowsFlag | persona/admin.py:251-273 | The status is '-' exactly where the celiac column says 'No' |
| PersonaAdmin.NoExpiryShownValidated | persona/admin.py:266-270 | A validated DDJJ without an expiry date shows as 'Validada' |
| PersonaAdmin.ExpiredAfterExpiryDay | persona/admin.py:266-270 | Past its expiry day a validated DDJJ shows 'Vencida'; on the day itself 'Validada' |
| PersonaAdmin.Inlines | persona/admin.py:130-139 | The observations inline always comes last and only there |
| PersonaAdmin.InlinesByRole | persona/admin.py:130-139 | A profile inline is shown exactly for `estudiante`, `docente`, `no_docente`, and it is the matching one |
| Accounts.MenuChangeGate | accounts/views.py:401-412 | No previous change: allowed; otherwise allowed exactly from the same date one calendar year later; when refused the days left are the days until then, at least 1 |
| Accounts.MenuGateStaysOpen | accounts/views.py:401-405 | Once allowed, a change stays allowed on every later day |
| Accounts.WaitCountsDown | accounts/views.py:403-406 | Each day that passes takes one day off the wait, or opens the gate |
| Accounts.CalendarYearNotDays | accounts/views.py:403-406 | The limit is a calendar year, not 365 days: concrete dates across a leap day |
| Accounts.ProfileFlagIsGate | accounts/views.py:316-329 | The profile page's can-change flag is the change gate itself |
| Accounts.ProfileRequiredOrder | accounts/views.py:19-51 | Login, then staff, then empty role, then `TEMP_` document, in that order |
| Accounts.HomeAgreesWithGate | accounts/views.py:54-77 | For a signed-in user `home` decides as the gate does |
| Accounts.AdminRolesNotSelectable | accounts/forms.py:58-66 | Admin and auditor roles cannot be self-selected; the five others can |
| Accounts.ChooseRole | accounts/views.py:96-121 | A choice succeeds exactly for an existing, unlocked person and a selectable role, and sets only the role |
| Accounts.RoleLockAfterCompletion | accounts/views.py:100-118 | With a role and a real document the role is locked; before completion it can be chosen again and routing then asks for the profile |
| Accounts.TempBlanking | accounts/forms.py:128-131 | A `TEMP_` document is shown blank; any other document is shown as stored |
| Accounts.PersonaBaseForm.constructor | accounts/forms.py:119-131 | The document shown initially is the blanked stored one, and the email is pre-filled from the user |
| Accounts.StudentProfileForm.constructor | accounts/forms.py:234-241 | The four document fields become optional; every other field keeps its declared flag |
| Accounts.StudentFormNewOnly | accounts/forms.py:260-276 | The DDJJ error never blocks an existing profile; for a new one it fires exactly for a celiac preference without upload |
| Personas.CeliacPrefixIsCeliac | persona/models.py:374 | Every preference starting with `celiaco` (both celiac menu keys) counts as celiac under the lower-cased substring test |
| Accounts.CeliacChoiceNeedsUpload | accounts/forms.py:270-274 | A new `celiaco_comun` profile without upload is refused |
| Changelog.Lines | persona/views.py:36-42 | One line per entry in dictionary order, each `campo: 'anterior' → 'nuevo'` |
| Changelog.DescriptionAppend | persona/views.py:36-42 | Each further entry adds a newline and its line to the description |
| Changelog.DescribeChanges | persona/views.py:36-42 | The loop builds exactly the joined description |
| Changelog.ActorName | persona/views.py:44 | The full name, or the user name when it is empty |
| Changelog.ObservationText | persona/views.py:44 | The text is `[ACCION] Cambios realizados por ` followed by the actor's name |
| Changelog.Render | persona/views.py:185-193 | A file is its name or 'Sin archivo'; any falsy value is the empty text |
| Changelog.ChangeKeyInjective | persona/views.py:190 | Distinct fields get distinct `Persona.<field>` keys |
| Changelog.EditEntries | persona/views.py:180-193 | One entry per changed field, with the previous and the new rendered value |
| Changelog.EditEntriesKeysDistinct | persona/views.py:180-193 | Distinct changed fields give distinct keys |
| Changelog.CollectChanges | persona/views.py:180-193 | The corrected loop collects exactly `EditEntries` of the values before and after |
| Changelog.InstanceAfterValidation | persona/views.py:174 | Validation copies every cleaned value onto the record |
| Changelog.AsWrittenLogsNewValueTwice | persona/views.py:180-193 | As written, 'anterior' always equals 'nuevo', save for a cleared file |
| Changelog.StalePreviousValueExample | persona/views.py:180-193 | Renaming Ana to Ana María logs 'Ana María' twice as written, and 'Ana' → 'Ana María' corrected |
| Directory.NewPersona | accounts/models.py:74-83 | The new person has an empty role, an incomplete `TEMP_` profile, and the user's names and email |
| Directory.SignUpJourney | accounts/models.py:65-83 | A new user is routed to role selection, may choose a role, is then asked for the profile, and sees a blank document |
| Directory.PersonaOfUser | accounts/views.py:389 | The first person of the user, or none exactly when the user has none |
| Directory.StudentOfPersona | accounts/views.py:395 | The first student row of the person, or none exactly when there is none |
| Directory.ReplaceStudentKeepsValid | persona/models.py:227-360 | Replacing a student row by one of the same person keeps the directory valid |
| Directory.StudentRow | accounts/views.py:388-399 | Found exactly for a linked `estudiante` with a student row; `NotAStudent` exactly for another role |
| Directory.ApplyPreference | accounts/views.py:401-423 | Succeeds exactly when the gate allows, the choice is known and `clean` accepts; stores the choice and today; a wait is reported in days |
| Directory.PreferenceChangeRules | accounts/views.py:388-423 | The whole view: no profile, not a student, too soon, or the stored change |
| Directory.SecondChangeRefused | accounts/views.py:401-412 | After a change, another the same day is refused with at least 365 days to wait |
| Directory.RowSurvivesUpdate | accounts/views.py:388-399 | Updating the student row keeps the user's row lookup |
| Directory.JustChangedWaits | accounts/views.py:401-412 | A student who just changed waits a full calendar year |
| Directory.AdminSaveDateRule | persona/admin.py:281-284 | An admin change of the preference stamps today; otherwise the date is kept |
| Directory.AdminSaveStampRule | persona/admin.py:293-296 | Only a change of `celiaco_validado` to true stamps the validation date and validator |
| Directory.AdminSaveKeepsEntered | persona/admin.py:277-297 | Apart from those stamps the entered values are saved as entered |
| Directory.AdminNotesCount | persona/admin.py:286-311 | One observation per triggered rule (preference changed, celiac condition validated, DDJJ uploaded), each on the student's person and by the administrator |
| Directory.AdminBypassesYearLimit | persona/admin.py:281-284 | The admin path changes the preference even while the student's own change is refused |
| Directory.AdminChanges | persona/admin.py:277-311 | The method computes exactly the saved student and the notes |
| Directory.ChangeNotes | persona/views.py:32-53 | Nothing for no changes, otherwise exactly one observation carrying the dictionary, the action, the author and the description |
| Directory.Directory.constructor | accounts/models.py:52-83 | A valid directory without profiles or observations |
| Directory.Directory.OnUserCreated | accounts/models.py:52-83 | A created user gets one profile and, without a person, a new one; an update changes nothing |
| Directory.Directory.SelectRole | accounts/views.py:93-121 | The result is `ChooseRole`, and only the chosen person's role changes |
| Directory.Directory.ChangeMenuPreference | accounts/views.py:385-425 | The result is `PreferenceChange`, and only that student row changes |
| Directory.CheckPreference | accounts/views.py:399-422 | The checks on the student row, in order, give exactly `ApplyPreference`: the one-year gate, the choice list, the student rules, then today as the change date |
| Directory.Directory.AdminSaveStudent | persona/admin.py:277-311 | The row becomes `AdminSaved` and the notes are appended |
| Directory.Directory.RecordChanges | persona/views.py:21-53 | Appends exactly `ChangeNotes` |
| Directory.Directory.LogPersonaEdit | persona/views.py:174-223 | Records one `modificacion` note holding the person's and the profile's changed fields, rendered from the "before" and "after" values it is given; the view passes as "before" the record read after validation, `Changelog.InstanceAfterValidation(snapshot, cleaned)`, so the logged previous value is the new one (see Findings) |
| Calendar.AddOneYear | accounts/views.py:403 | `relativedelta(years=1)`: same month and day next year, 29 February clamped to 28; absent past year 9999 |
| Calendar.OneYearLength | accounts/views.py:403-406 | A calendar year is 365 or 366 days long |
| Calendar.AddDays | comedor/views.py:134 | `+ timedelta(days=n)` moves the ordinal by n; absent past the last date |

## Left out

- QR image generation and storage (`generar_qr`): image library and file I/O.
- `uuid4()`: taken from a code oracle; a collision fails the transaction.
- Database concurrency: the `count()+1` numbering race and the lack of row locks are not modelled.
- Transaction isolation is not modelled either. Stores are sequences, and a failure restores them.
- HTTP handling, `messages`, redirects, templates and the debug prints are not modelled.
- File uploads, the file and image validators, and the celiac certificate's storage are not modelled. An upload is a flag.
- The order in which the carousel shows images is not modelled, only which ones it shows.
- Decimal field digit limits are not modelled. Stored amounts (`decimal_places=2`) are rounded to two decimals on save, so a stored price or discount, and the totals `calcular_totales` sums from them, can differ from the exact reals of the model (a 33.33% discount, say).
- Parsing of the date strings in `asignar_beca` and `editar_beca` is not modelled. Unparseable input falls into the view's generic exception branch.
- `editar_beca` stores any state string the request carries. The model only takes the six states.
- GrantRegistry.Registry.AssignGrant does not model the `validar_estudiante` branch of `asignar_beca`.
- Removing a grant through `eliminar_beca` is only proved to keep the registry valid (GrantRegistry.RemoveKeepsValid). No method performs it.
- The `SET_NULL` of tickets when a benefit or menu is deleted is not modelled.
- `PersonaAdmin.save_model` and the add path (`change` false) of `PersonaEstudianteAdmin.save_model` are not modelled.
- Directory.AdminSaveStudent: `datetime.now()` is taken as today's date; the time of day is not modelled.
- Directory.Directory.LogPersonaEdit does not model saving the person and profile forms. Only the log entry is recorded.
- Text.Lower and Text.Upper fold ASCII letters only, where Python's `lower()`/`upper()` fold all of Unicode. Every literal they are compared with is ASCII.
- `get_full_name()` is taken as a given field of the actor. Its whitespace stripping is not modelled.
- Directory.ApplyPreference: a failure of `PersonaEstudiante.clean` is one `Rejected` outcome. Whether Django shows it as a form error or raises is not distinguished; the store is unchanged either way.
- The dashboard counters, the admin registrations, settings, URLs and the health-provider integration models are not modelled.
- Eligibility.ResolvePaid: the student lookup goes through `request.user.persona.estudiante`. The model receives the student directly.

Where the code and its description differ, the model follows the code. This includes two places where the code is evidently wrong (see Findings): the free flow serves the vegetarian menu to every preference but `comun` (Issuance.FreePlan), and the `Residencia` cascade raises instead of creating the `Comedor` grant (GrantRegistry.Registry.RunCascade). The intended versions of both are modelled and proved beside them but drive no operation. The other differences:

- The menu limit is one calendar year (`relativedelta`), not 365 days. See Accounts.CalendarYearNotDays.
- Among several matching grants, the first in stored order wins. There is no explicit ordering.
- No pricing function rounds.
- `editar_beca` saves without `full_clean`. See GrantRegistry.EditSkipsDateOrder.

## Findings

| source | as written | input that shows it | evidently intended | confidence | as-written member | corrected member |
|---|---|---|---|---|---|---|
| comedor/views.py:269-272 | The free flow maps every preference other than `comun` to the vegetarian menu | A free-benefit student with `celiaco_comun`, when a celiac-common menu is configured, is served the vegetarian menu | Each preference selects its own slot, as in the paid flow | not executed | Menus.FreeFlowSlotAsWritten, Menus.FreeFlowServesVegetarianToCeliac, Issuance.FreeFlowNeedsVegetarianSlot | Menus.FreeFlowSlot, Menus.FreeFlowSlotCorrected |
| persona/signals.py:38 | The `Comedor` grant is created with a `preferencia_menu` argument that `PersonaBeca` does not have | Any first `Residencia` grant with an active `Comedor` entry and no blocking grant: the create raises | Create the grant without that argument | not executed | GrantRegistry.ComedorCascadeAsWritten, GrantRegistry.AsWrittenCrashesOnFirstResidencia, GrantRegistry.AssignmentLosesCascadeGrant | GrantRegistry.ComedorCascade, GrantRegistry.CascadeCopiesTrigger |
| comedor/forms.py:165 | `clean` compares the percentage with 0 after `clean_porcentaje_descuento` dropped it | Kind `descuento`, percentage 150: comparing the missing value raises instead of reporting the range error | Skip the rule when the percentage was already refused | not executed | ComedorForms.BenefitFormAsWritten, ComedorForms.DiscountOutOfRangeRaises | ComedorForms.BenefitForm, ComedorForms.BenefitFormRules |
| persona/views.py:181 | The previous value is read from the record after form validation has copied the new value onto it | Renaming `Ana` to `Ana María` logs 'Ana María' → 'Ana María' | Log the value held before the edit | not executed | Changelog.EditEntriesAsWritten, Changelog.AsWrittenLogsNewValueTwice | Changelog.EditEntries, Changelog.CollectChanges |
