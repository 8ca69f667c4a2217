# Consortium instalment and contemplation engine

A Dafny model of the engine behind a consortium manager. In a consortium
(*consórcio*), members buy quotas of a pool. They pay a monthly instalment.
Each month, one quota's worth of members is *contemplated*, which means they
receive the pool. The model covers four parts:

- **Monthly amounts** (`MonthlyAmount`, `monthly_amount.dfy`): the fixed and
  the progressive monthly charge of a member, rounded half up to cents.
- **Payment ledger** (`Ledger`, `ledger.dfy`):
  - one payment row per (consortium, member, month);
  - idempotent generation, and delete-then-regenerate;
  - the overdue sweep;
  - recording a payment, with the member status rolled up afterwards;
  - the status summary.
- **Contemplation allocator**:
  - `Slots` (`slots.dfy`) and `AutoAllocation` (`auto_allocation.dfy`):
    automatic allocation. Quotas are split into whole and fractional slots.
    Each whole slot takes one month. Fractional slots are bundled greedily
    into groups of at most two members and at most one quota, one month per
    group. Allocation stops when the months run out.
  - `Contemplations` (`contemplations.dfy`): manual contemplation of one or
    two members under the monthly cap of 1.0 + 0.01 quotas, and editing and
    deleting a contemplation, with roll-back of the member flags.
  - `TimelineView` (`timeline_view.dfy`): the timeline of a consortium.
- **Membership routes** (`Membership`, `membership.dfy`):
  - the request schemas;
  - the pagination arithmetic;
  - join, with duplicate rejection;
  - leave, with its cascade.

`Records` (`records.dfy`) holds the four record kinds and the field
validators their model declarations carry. `Tables` (`tables.dfy`) holds the
in-memory database:

- a `Database` class with one field per table;
- auto-increment counters;
- `Valid()`, which states the validators and the unique indexes.

Each route handler is a method on the database. It answers a `Result`. The
error variant names why the route refused:

| error | status |
|---|---|
| `NotFound` | 404, except for an unknown payment id in the pay route: the service throws and the route's catch answers 500 (backend/routes/timeline.js:154-157) |
| `Conflict` | 409 |
| `BadRequest` | 400 |
| `Invalid` | a record validator refused the write; the client sees 500 |
| `UniqueViolation` | a unique index refused the insert; the client sees 500 |

Money and quota counts are exact `real`s. A date is reduced to an absolute
month number and a day. The current date is a parameter. The random
reorderings of automatic allocation are parameters too: each is constrained
only to be a reordering (equal multisets) of the list the route shuffles, and
every property below holds for every such order.

Loops that the routes run become methods with loop invariants:

- generation's nested loops: `Ledger.ScheduleMember` and
  `Ledger.ScheduleConsortium`;
- the month's quota accumulation: `Contemplations.QuotasAwardedInMonth`;
- the create-and-mark loop: `Contemplations.WriteManual`;
- the quota split: `Slots.SplitQuotas`;
- the placement loops: `Slots.PlaceWhole` and `Slots.BundleGroups`, composed
  into `Slots.PlanAllocation` by `Slots.PlaceGroups`;
- the timeline grouping: `TimelineView.GroupByMonth`.

Each of these is proved equal to a specification function. The properties
are proved about those functions.

Where the code departs from its evident intent, the model follows the code:

- Automatic allocation draws from all months 1..term, although the comment
  over that list calls it the list of available months
  (backend/routes/timeline.js:544-546). It can therefore add rows to a
  month that already has contemplations.
- Editing a contemplation refuses a changed month when any other row of the
  consortium uses it. It applies no quota test and does not check the new
  member.
- Leaving keeps the membership row, inactive. A later join of the same pair
  passes every route check and is then refused by the unique index
  (`Membership.RejoinHitsUniqueIndex`). Leaving also keeps the member's
  contemplation flags.
- Recording a payment and the overdue sweep overwrite a member status of
  `contemplado`.
- Joining does not compare the sum of the quotas with the consortium's
  quota count.
- The contemplate and edit schemas accept any month in 1..120, whatever the
  consortium's term (backend/routes/timeline.js:165 and 296). A contemplation
  can therefore fall after the last instalment (`Contemplations.ManualRequestOk`,
  `Contemplations.EditRequestOk`).
- Regeneration is commented as producing updated values
  (backend/services/pagamentoService.js:61 and 73), but it only deletes the
  rows and generates them again. Each new row still takes the member's stored
  individual amount (backend/services/pagamentoService.js:38-42), so a change
  of the consortium's total or quota count never reaches the expected amount.
- An unknown payment id reaches the pay route's generic catch and answers
  500, not 404 (`Ledger.RecordPayment` answers `NotFound`).
- The add-member schema accepts any positive individual amount. The record
  validator requires at least 0.01, so an amount in (0, 0.01) passes the
  route and is refused at the insert (`Invalid`).

## Model

| member | source | states |
|---|---|---|
| Records.NewConsortium | backend/models/Consorcio.js:18-59 | the fee and the increment default to 0 and the status to `ativo`; the record is valid iff total ≥ 0, term in [1, 120], quota count ≥ 1 and fee and increment ≥ 0 |
| Records.NewMembership | backend/models/ConsorcioParticipante.js:26-60 | a new membership is active, without leave date, not contemplated; it is valid iff the quota count is valid and the individual amount ≥ 0.01 |
| Records.QuotaCountValues | backend/models/ConsorcioParticipante.js:29-38 | a quota count passes min 0.5, max 3.0 and the multiple-of-0.5 validator iff it is one of 0.5, 1.0, …, 3.0 |
| Records.NewPayment | backend/models/Pagamento.js:26-59 | a new payment row is `pendente` and unpaid; it is valid iff the month is in [1, 120] and the expected amount ≥ 0 |
| Records.KindOrDefault | backend/models/Contemplacao.js:45-48 | the contemplation type is `automatico` unless one is given |
| Tables.FindMember | backend/models/ConsorcioParticipante.js:64-69 | finds the first row of a (consortium, participant) pair, and none exactly when no row has the pair |
| Tables.FindActiveMember | backend/routes/consorcios.js:264-270 | finds an active row of the pair, and none exactly when the pair has no active row |
| Tables.SameRowsKeepConstraints | backend/models/ConsorcioParticipante.js:26-69 | updating only the contemplation and payment-status columns keeps the validators and the unique (consortium, participant) index |
| MonthlyAmount.Round2IsNearestCent | backend/utils/calculoMensal.js:30 | `Math.round(x*100)/100` is a whole number of cents within half a cent of x, halves rounding up |
| MonthlyAmount.AbsentGivesZero | backend/utils/calculoMensal.js:2 | both amounts are 0 when the consortium or the member is absent |
| MonthlyAmount.OrOne | backend/utils/calculoMensal.js:7-8 | a zero term or quota count falls back to 1, so the divisor is never 0 |
| MonthlyAmount.CurrentMonth | backend/utils/calculoMensal.js:12-18 | without a given month, the month is the elapsed months + 1 while that lies in [1, term], the last month of the term after it, and month 1 before it |
| MonthlyAmount.FixedIsRoundedShare | backend/utils/calculoMensal.js:43-49 | the fixed amount is ((total + fee × term) / quotas) × q rounded half up to cents |
| MonthlyAmount.FixedExample | backend/utils/calculoMensal.js:33-50 | 12000 over 12 months and 12 quotas, no fee, one quota gives 1000.00 |
| MonthlyAmount.ProgressiveMonthOneIsFixed | backend/utils/calculoMensal.js:25-30 | in month 1 the progressive amount equals the fixed amount |
| MonthlyAmount.ProgressiveAddsIncrementPerQuota | backend/utils/calculoMensal.js:25-28 | the increment × (m − 1) is added per quota before multiplying by the quota count (to within the two roundings) |
| MonthlyAmount.ProgressiveNonDecreasing | backend/utils/calculoMensal.js:25-30 | with a non-negative increment the progressive amount never decreases with the month |
| MonthlyAmount.Round2Monotone | backend/utils/calculoMensal.js:30 | rounding to cents is monotone |
| Ledger.DueDate | backend/services/pagamentoService.js:33-35 | the due date is day 8 of the month `month − 1` months after the start |
| Ledger.ScheduledPaymentShape | backend/services/pagamentoService.js:33-51 | a generated row is valid and pending; its expected amount is individual amount + fee in month 1 and grows by exactly the increment each month |
| Ledger.ScheduleMember | backend/services/pagamentoService.js:22-55 | the month loop leaves a row for every month of the term; it inserts only scheduled rows for months that had none, under fresh increasing ids, and inserts nothing when all months are covered |
| Ledger.ScheduleConsortium | backend/services/pagamentoService.js:21-58 | the member loop covers every active member; it keeps every old row, the validators and the unique triple, returns exactly the new ids, and is a no-op on a covered table |
| Ledger.GenerateSchedule | backend/services/pagamentoService.js:7-59 | NotFound for an unknown consortium; otherwise every active member has a row per month, old rows are kept, only new ids are returned, and a second run creates none |
| Ledger.RegenerateSchedule | backend/services/pagamentoService.js:62-75 | other consortia's rows are untouched; every row of the consortium is a fresh scheduled row of a current active member, and every member-month is covered; the answer lists exactly the rows created, all of the consortium, in increasing id order |
| Ledger.SweepOnlyTouchesPastDuePending | backend/services/pagamentoService.js:81-89 | a row changes iff it is pending and due strictly before today, and then only its status changes, to `em_atraso` |
| Ledger.SweepIdempotent | backend/services/pagamentoService.js:78-109 | a second sweep with the same date changes neither the rows nor the member flags |
| Ledger.SweepOverdue | backend/services/pagamentoService.js:78-109 | the rows become the swept rows; every membership of a pair with an overdue row gets status `em_atraso`, the others are kept |
| Ledger.FlagOverdueMembers | backend/services/pagamentoService.js:91-108 | the member loop keeps each membership's pair, quotas, amount, dates and active flag, and gives each membership exactly what the sweep defines: status `em_atraso` when its pair has an overdue row, the row unchanged otherwise |
| Ledger.PaidRow | backend/services/pagamentoService.js:118-127 | status `pago` iff the amount ≥ the expected amount, else `parcial`; the amount and date are recorded and nothing else changes |
| Ledger.RollupIsOverdueIff | backend/services/pagamentoService.js:130-148 | the rolled-up member status is `em_atraso` iff one of the pair's rows is overdue, else `em_dia` |
| Ledger.RecordPayment | backend/services/pagamentoService.js:112-161 | BadRequest for a non-positive amount, NotFound for an unknown id (the route answers it with 500); otherwise that row is replaced by the paid row and the pair's memberships take the rolled-up status |
| Ledger.SummaryCountsAddUp | backend/services/pagamentoService.js:175-181 | pagos + pendentes + em_atraso + parciais = total |
| Ledger.SummaryPercentInRange | backend/services/pagamentoService.js:183-184 | the paid percentage is 0 with no rows, lies in [0, 100], and is 100 when every row is paid |
| Slots.SplitQuotas | backend/routes/timeline.js:506-537 | the split loop produces exactly the whole slots and the fractional slots of the members, in member order |
| Slots.SplitConserves | backend/routes/timeline.js:506-537 | the shares of all slots sum to the members' quota total |
| Slots.MemberSplitConserves | backend/routes/timeline.js:510-536 | per member, the number of whole slots plus the fractional share equals its quota count |
| Slots.SlotShares | backend/routes/timeline.js:512-535 | whole slots carry 1.0; fractional slots carry a share in (0, 1) |
| Slots.FracSlotOfValidCount | backend/routes/timeline.js:510-536 | with a valid quota count a member has at most one fractional slot, of 0.5, exactly when its count is not whole, and floor(q) whole slots |
| Slots.ShuffledMonths | backend/routes/timeline.js:545-546 | any reordering of 1..term is term distinct months, each in [1, term] |
| Slots.GroupsConserve | backend/routes/timeline.js:576-671 | the fractional groups, concatenated, are exactly the shuffled fractional slots |
| Slots.GroupsBounded | backend/routes/timeline.js:580-632 | every group has one or two slots whose shares sum to at most 1.0 |
| Slots.PlanAllocation | backend/routes/timeline.js:548-671 | the two placement loops produce exactly the planned rows (whole rows, then group rows) and the group rows |
| Slots.PlaceWhole | backend/routes/timeline.js:548-574 | the whole-slot loop gives the k-th whole slot the k-th month of the shuffled list and stops when the months run out: its rows are exactly the whole rows of the first min(slots, months) slots |
| Slots.BundleGroups | backend/routes/timeline.js:576-633 | the bundling loop closes groups greedily, each taking the next month; on exit the groups it closed followed by the groups of what remains are exactly the greedy groups, their rows are the rows of the closed groups, and it stops early only when a group is due and no month is left |
| Slots.PlaceGroups | backend/routes/timeline.js:576-671 | the bundling loop plus the last open group: the group rows are exactly the rows of the first groups, one month each, as many as there are months left after the whole slots |
| Slots.PlanIsUnits | backend/routes/timeline.js:548-671 | the rows are those of the placed units in order, unit j taking month j of the shuffle, and there are no more units than months |
| Slots.PlanPlacesPrefixes | backend/routes/timeline.js:553-636 | a prefix of the whole slots and a prefix of the groups are placed; everything is placed when the units fit the months, and otherwise every month is used |
| Slots.PlanUnitsBounded | backend/routes/timeline.js:548-671 | every placed unit is a single whole slot or a group of at most two slots and at most one quota |
| Slots.PlanOneUnitPerMonth | backend/routes/timeline.js:548-671 | with distinct months, the rows of a used month are exactly the rows of the one unit that took it, and a month no unit took has no row |
| Slots.ValidCountsFit | backend/routes/timeline.js:497-504 | with valid quota counts whose total is within the term, whole slots plus groups fit in the term, so nothing is cut off |
| Slots.PlanRowsPerMember | backend/routes/timeline.js:548-671 | when the quota total fits, each member gets one row per slot, floor(q) plus one for a fraction, and a non-member gets none |
| Slots.ValidCountSlots | backend/routes/timeline.js:691 | a member with a valid count has at least one slot and at least floor(q) slots |
| Slots.LastMonthIffCounted | backend/routes/timeline.js:674-692 | a member has a last generated month iff it has at least one generated row |
| AutoAllocation.CandidatesFacts | backend/routes/timeline.js:468-489 | the candidates are exactly the active, not yet contemplated memberships, without repetition, with valid counts |
| AutoAllocation.FinalMarksLast | backend/routes/timeline.js:673-708 | the final pass marks a candidate with the month of its last row exactly when its rows number at least floor(q), and marks no one else |
| AutoAllocation.AutoRows | backend/routes/timeline.js:561-568 | each generated row is an `automatico` row for the placement's member and month, awarding the pool |
| AutoAllocation.AutoRowsAwardPool | backend/routes/timeline.js:561-651 | every row automatic allocation creates, for a whole slot or a group, is an `automatico` row without bid or notes for its placement's member and month, awarding the whole pool at that month's award date |
| AutoAllocation.AutoContemplatesEveryEligible | backend/routes/timeline.js:488-708 | for every shuffle, on valid data within the term, every eligible member gets one row per slot and is contemplated at the month of its last row; no other membership changes |
| AutoAllocation.AutoContemplate | backend/routes/timeline.js:455-719 | NotFound, then BadRequest with no candidate, then BadRequest when the quota total exceeds the term; otherwise the planned rows are inserted and eligible members are marked, each at its last row's month |
| Contemplations.AwardDate | backend/routes/timeline.js:245-247 | the contemplation date is the start moved on month − 1 months |
| Contemplations.NewRow | backend/routes/timeline.js:252-261 | a created row has the consortium, member and month asked for, awards the consortium's whole pool (`montante_total`), is dated at the start moved on month − 1 months, carries the given type, bid and notes, and is valid for a valid consortium, a month in [1, 120] and a positive bid |
| Contemplations.ManualRowsAwardPool | backend/routes/timeline.js:249-261 | every row manual contemplation creates names the requested member, in request order, for the month asked, awards the whole pool, carries the award date and the type, defaulting to `automatico` |
| Contemplations.Inserted | backend/routes/timeline.js:249-262 | new rows take the ids next, next + 1, … and every old row is kept |
| Contemplations.ApplyMarks | backend/routes/timeline.js:264-277 | only the flag columns change, and each membership of the consortium ends with the month of its last mark |
| Contemplations.FoundAllIff | backend/routes/timeline.js:211-224 | the row count found equals the id count iff every id is an active member and no id repeats |
| Contemplations.QuotasAwardedInMonth | backend/routes/timeline.js:189-209 | the accumulation loop computes the quotas already contemplated in the month |
| Contemplations.AwardedInMonthBounds | backend/routes/timeline.js:197-209 | that sum is never negative, and is 0 when the month has no contemplation |
| Contemplations.ManualMarksRequested | backend/routes/timeline.js:264-277 | exactly the requested members of the consortium become contemplated in the month with status `contemplado`; no other row changes |
| Contemplations.WriteManual | backend/routes/timeline.js:249-278 | the create-and-mark loop inserts one row per requested member and applies the marks |
| Contemplations.ManualMonthSum | backend/routes/timeline.js:234-243 | after the writes the month's quota sum is the old sum plus the requested members' quotas |
| Contemplations.ManualContemplate | backend/routes/timeline.js:161-289 | BadRequest, NotFound, NotFound for a missing or repeated member, Conflict for an already contemplated one, and BadRequest iff the quotas already in the month plus the requested ones exceed 1.01; on success the rows and marks are written; nothing changes on error |
| Contemplations.EditedRow | backend/routes/timeline.js:361-368 | the row takes the new member, month and date; type, bid and notes are kept when not given; validity is kept |
| Contemplations.EditContemplation | backend/routes/timeline.js:292-394 | BadRequest, NotFound, and Conflict iff the month changed and another row uses it; otherwise Ok, with the old member reverted, the new one marked, and the row rewritten |
| Contemplations.DeleteContemplation | backend/routes/timeline.js:397-452 | NotFound unless the row exists and its consortium is the manager's; on success exactly that row is removed and every member contemplated in its month is reverted |
| TimelineView.IdsOfComplete | backend/routes/timeline.js:34-39 | the query returns exactly the consortium's contemplation rows |
| TimelineView.GroupByMonth | backend/routes/timeline.js:46-64 | the grouping loop opens a bucket for every month that has a row and fills it with that month's entries in query order |
| TimelineView.MonthEntriesIff | backend/routes/timeline.js:50-63 | an entry is in a month's bucket iff some row of that month has a member with an active membership, whose quota count it carries |
| TimelineView.MonthEntriesAtMostRows | backend/routes/timeline.js:50-63 | a bucket never holds more entries than its month has rows |
| TimelineView.ActiveQuotasBounds | backend/routes/timeline.js:66-69 | the occupied quota total lies between 0.5 and 3.0 per active member, and is 0 iff there is none |
| TimelineView.View | backend/routes/timeline.js:66-88 | the available quotas are the consortium's quotas minus the active members' quotas; the buckets are keyed by exactly the months that have a row |
| TimelineView.ShowTimeline | backend/routes/timeline.js:17-92 | NotFound unless the consortium is the manager's; otherwise missing payments are generated first and the view is taken over the resulting tables |
| Membership.ConsortiumSchemaMatchesRecord | backend/routes/consorcios.js:9-20 | on whole counts and an acceptable name, the creation schema accepts iff the created record is valid |
| Membership.ConsortiumSchemaCreatesValid | backend/routes/consorcios.js:158-178 | an accepted request creates a valid consortium with the declared defaults |
| Membership.JoinSchemaQuotas | backend/routes/consorcios.js:35-39 | the add-member schema accepts iff the quota count is valid and the amount positive; accepted counts are the six half-steps |
| Membership.JoinSchemaRejectsThirdOfQuota | backend/tests/consorcios.test.js:468-482 | 0.3 quotas are rejected |
| Membership.Offset | backend/routes/consorcios.js:43-44 | offset = (page − 1) × limit, non-negative from page 1 |
| Membership.Pages | backend/routes/consorcios.js:71-78 | ceil(count / limit) pages, none for a limit of 0 |
| Membership.PagesIsLeast | backend/routes/consorcios.js:43-44 | the page count is the least number of pages holding every row, and each page starts at an existing row |
| Membership.JoinOutcome | backend/routes/consorcios.js:232-288 | the join succeeds iff the schema passes, the consortium and an active profile are the manager's, the amount ≥ 0.01 and the pair has no row; the new row is a fresh active membership |
| Membership.JoinKeepsTableValid | backend/models/ConsorcioParticipante.js:64-69 | an accepted row keeps the validators and the unique pair index |
| Membership.JoinTwiceConflicts | backend/routes/consorcios.js:264-274 | joining the same pair again right after is refused with Conflict |
| Membership.RejoinHitsUniqueIndex | backend/models/ConsorcioParticipante.js:64-69 | a pair that has left cannot join again: the insert is refused by the unique index |
| Membership.Join | backend/routes/consorcios.js:232-288 | the handler answers the join outcome and appends the row only on success |
| Membership.PaymentsWithout | backend/routes/consorcios.js:316-321 | removes exactly the pair's payment rows in the consortium |
| Membership.ContemplationsWithout | backend/routes/consorcios.js:324-329 | removes exactly the pair's contemplation rows in the consortium |
| Membership.Leave | backend/routes/consorcios.js:290-341 | NotFound unless the consortium is the manager's and the pair is active; otherwise its payments and contemplations are deleted and the membership is closed with a leave date |
| Membership.LeaveLeavesNothing | backend/routes/consorcios.js:305-334 | after leaving, the pair has no active membership, no payment and no contemplation row, so a second leave is refused |

## Left out

- HTTP plumbing is left out: routing, authentication, status codes as
  transport, and the Joi library itself. The request checks are kept as
  predicates. Manager ownership is a field of the consortium record, checked
  as a NotFound branch.
- Persistence is left out: the ORM, the database engine and associations.
  The tables are in-memory fields of one `Database` object. Each handler
  runs as one step, with no concurrency or partial failure.
- Dates are abstracted. There is no JS `Date`, no `setMonth` day overflow,
  and no 30.44-day month estimate in the progressive amount. The elapsed
  month count and "today" are parameters.
- Floating point and DECIMAL string coercion are left out. Amounts and
  quota counts are exact reals, so the `+ 0.01` tolerance of the manual cap
  is applied to exact sums.
- The random comparators of automatic allocation are left out. The orders
  they produce are inputs constrained to be reorderings.
- The cron job that triggers the sweep is left out (`backend/jobs` is not
  part of this model). The profile, manager and authentication routes, the
  scripts, the frontend and the tests are not part of this model either.
- Profiles carry only their manager and their active flag. The fields
  `nome`, `data_fim` and `descricao` of a consortium are left out; only the
  creation schema's rule on name length and non-empty description is kept.
  The consortium read, update and delete routes are left out.
- Consortium creation is modelled by its schema and the record it builds.
  The insert under a new id is not modelled.
- TimelineView.GroupByMonth: the query orders the rows by month, and the
  order among rows of the same month is left to the database. The model
  uses increasing id order within a month.
- The timeline's participant names and its list of raw rows are not
  modelled. Neither is the per-member contemplation count that
  auto-allocation computes and never uses.
- AutoAllocation.AutoContemplate: the row inserts, the group marks and the
  final marks are written after the plan is complete. In the route they are
  interleaved with planning. The final table is the same, because a mark
  depends only on the last mark of each member. The intermediate states are
  not modelled.
- AutoAllocation.AutoContemplatesEveryEligible requires valid tables and a
  quota total within the term. This is the case the handler reaches after
  its own checks.
- Participant ids are natural numbers. The route schemas accept any
  integer, and a negative id matches no row.
