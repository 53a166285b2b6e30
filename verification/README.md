# A model of the partner portal's billing engine, key store and mail client

The partner portal meters requests, closes each partner's billing day into an immutable
statement, suspends partners who do not pay, authenticates requests against a cached snapshot
of API keys, and mails statements through a hand-written SMTP client. This project models those
parts in Dafny and proves what they are for: over every run, for every input, and, where a
promise does not hold, exactly when it does.

Check it with `dafny verify dfyconfig.toml`.

## How it is laid out

| file | what it models |
|---|---|
| `Period.dfy`, `Generator.dfy` | billing days as numbers, the instants they cover, which days may be closed |
| `Pricing.dfy`, `PriceText.dfy`, `Decimal.dfy` | component costs and lines; parsing and rendering prices |
| `Usage.dfy`, `Statements.dfy` | usage rows grouped and drafted into a statement; the statement table |
| `Walks.dfy`, `Conservation.dfy` | any number of schedulers as a step machine; safety and conservation over its runs |
| `Worker.dfy`, `Refinement.dfy` | the scheduler's own loop over its store, and that loop as a run of the machine |
| `Status.dfy`, `StatusViews.dfy`, `Payments.dfy` | the derived service status, its readers, and payments that race |
| `KeyTable.dfy`, `KeySnapshot.dfy`, `RefreshMachine.dfy` | the key table, the snapshot built from it, and caches refreshed without a lock |
| `Timefmt.dfy`, `Base64Url.dfy` | fixed-width timestamps; unpadded URL-safe base64 |
| `MailMessage.dfy`, `Replies.dfy`, `Conversation.dfy`, `Session.dfy` | a message's bytes, reading replies out of chunks, the conversation, the client |
| `LatencyHist.dfy` | the load test's histogram |

Days are integers and instants are nanoseconds; a timezone is a fixed offset. Database
transactions are single steps with the schema's uniqueness constraints. Clocks, the readers
of the `time` crate, the key hash, what a peer sends and when the database fails are
parameters, so every statement holds for all of them. Where the source works step by step, so
does the model: classes with fields and loops, each proved against a function whose properties
are proved beside it. A lemma with a function among its parameters carries `{:induction false}`
even where it does not recurse: Dafny's automatic induction ranks function values, and must not be
relied on there.

## Where the code is narrower than its comments

Each of these is kept as the code has it, with the exact condition or a run that shows it.

- A failed day is documented as retried on the next tick (`src/billing/worker.rs:280-282`). The
  walk goes on after a failure (`src/billing/worker.rs:270-273`), and once a later day of it
  succeeds the failed one is behind the anchor for good: `Refinement.SkippedDayIsLost`,
  `Refinement.OneFailedReadLosesADay`. `Refinement.LoopGapFreeExactlyWhen` says which walks are safe.
- A statement is read back after its insert is committed (`src/billing/store.rs:737-747`). When
  that read fails, the day counts as failed although its statement is in the table:
  `Worker.TallyCountsInsertsExactlyWhen`.
- Payment terms are bounded only from below (`src/ledger/schema.sql:254`,
  `src/billing/store.rs:1318-1322`). Terms that lead past year 9999 leave an invoice without a
  deadline, and the store refuses its draft (`src/billing/store.rs:1335-1336`), on that day and
  every later one: `Usage.DraftIsValidExactlyWhen`, `Usage.RefusedFromThenOn`,
  `Walks.LongTermsAreNeverStated`.
- A partner whose creation time cannot be read is said to have its shortened walk reported
  (`src/billing/worker.rs:384-390`). The walk then starts right after the bound, so no report is
  made, and it covers a day less: `Worker.UnreadableCreationIsNotReported`.
- `closable_through` looks back two days only. A close delay above a day sometimes finds nothing
  to close, and one of two days or more never does: `Generator.AlwaysClosableExactlyWhen`,
  `Generator.NeverClosableExactlyWhen`.
- `component_cost` rounds half away from zero only for products above minus one half:
  `Pricing.CostRoundsAwayExactlyWhen`. Prices in the tables are never negative.
- `micros +=` in the price parser is unchecked. `PriceText.Parse` models its wrap and shows that
  it still ends in `OutOfRange`.
- The comment at `src/apikeys/store.rs:487-493` says the error code tells a hash collision from
  a second active key. Both constraints have the same code, so a plaintext issued twice to a
  consumer with an active key is reported as that consumer's: `KeyTable.AlreadyActiveExactlyWhen`.
- `update` stores the name it was given, untrimmed, where `create` trims:
  `KeyTable.UpdateStoresATrimmedNameExactlyWhen`.
- A deadline that is no rendering of an instant can make the snapshot and the whole overdue list
  give different statuses. This product writes no such text, the column admits it:
  `Status.SnapshotAgreesExactlyWhen`.
- A mutation is documented as visible on the very next request. It can be undone by a poll that
  loaded before it and swaps after it: `RefreshMachine.PollUndoesAMutation`,
  `RefreshMachine.VisibleForGoodExactlyWhen`.
- A request that loses a race to record a payment is told, and logs, that it recorded one
  (`Payments.LoserIsToldItRecorded`). The payment reported is its own exactly when its update found
  none on the row, or an equal one: `Payments.OwnPaymentExactlyWhen`.
- 251 is accepted wherever 250 is expected, not for RCPT alone (`src/billing/email.rs:633-646`):
  `Conversation.DocumentedRuleExactlyWhen`, `Conversation.RelayAnswering251`.
- The 500-character bound meant for error texts also cuts the capability list:
  `Replies.CapabilitiesRecordedExactlyWhen`, `Replies.LongGreetingHidesEveryCapability`.
- `TS_FORMAT` names no offset, and whether a reader of that layout can then make an instant of a
  text is up to the `time` crate. Either way its two readers are `Timefmt.ParseTs`:
  `Timefmt.EitherReaderWillDo`.

## Model

| member | source | states |
|---|---|---|
| `Period.ContainsExactly` | src/billing/period.rs:208-220 | an instant lies in a day's half-open period exactly when it falls on that day |
| `Period.DaysTile` | src/billing/period.rs:66-99 | consecutive days cover the instants from the first one's start to the last one's end, without gap or overlap |
| `Period.EastIsAhead` | src/billing/period.rs:66-99 | an offset is minutes east of UTC: at the two extreme offsets, to the nanosecond, which day it is |
| `Generator.Generator.DaysToClose` | src/billing/statements.rs:128-165 | the days after the last one closed, up to the given one and within the month that ends there: all of them, in order, and no others; cut short exactly when the catch-up bound says so |
| `Generator.SettledExactly` | src/billing/statements.rs:118-126 | a day's cutoff has passed exactly when it is before the day the clock was in one delay ago |
| `Generator.ClosableIsNewestSettled` | src/billing/statements.rs:98-111 | whenever a day is named it is the newest whose cutoff has passed, and one is named exactly when the delay reaches back no further than yesterday's start |
| `Generator.AlwaysClosableExactlyWhen` | src/billing/statements.rs:98-111 | a day is found at every instant exactly when the delay is at most 1440 minutes |
| `Generator.NeverClosableExactlyWhen` | src/billing/statements.rs:98-111 | no day is ever found exactly when the delay is 2880 minutes or more |
| `Generator.ClosableMonotone` | src/billing/statements.rs:98-111 | the day found never moves back as time goes on |
| `Generator.LongDelayLosesADay` | src/billing/statements.rs:98-111 | with a 25 hour delay a day is closable before midnight and none is after it |
| `Generator.WalkIsSettled` | src/billing/statements.rs:98-126 | no walk reaches a day before its cutoff |
| `Pricing.ComponentCostExact` | src/billing/pricing.rs:363-388 | for a non-negative price the cost is the exact quotient rounded half away from zero, refused exactly when that exceeds 64 bits |
| `Pricing.NearestAwayUnique` | src/billing/pricing.rs:363-388 | an exact quotient has only one nearest unit with halves away from zero, so the rounding specified leaves no choice |
| `Pricing.RoundsAwayExactlyWhen` | src/billing/pricing.rs:363-388 | the quotient rounds half away from zero exactly for products above minus one half |
| `Pricing.CostRoundsAwayExactlyWhen` | src/billing/pricing.rs:363-388 | the same of any cost the function returns |
| `Pricing.NegativePriceRoundsWrong` | src/billing/pricing.rs:363-388 | a product of exactly minus one million costs nothing, where rounding gives minus one |
| `Pricing.ComponentCostMonotone` | src/billing/pricing.rs:363-388 | more tokens or a higher price never cost less, and less of either still fits |
| `Pricing.PriceLineExact` | src/billing/pricing.rs:390-476 | a line is refused exactly when cached exceeds input or its exact parts do not fit; otherwise each part is exact to half a unit and they add up to the total |
| `Pricing.LineWithinOneAndAHalf` | src/billing/pricing.rs:421-476 | a line is within one and a half micro-dollars of its exact cost |
| `Pricing.GroupedVersusAlone` | src/billing/statements.rs:324-346 | pricing n requests as one line differs from pricing them alone by at most 3(n+1)/2 |
| `PriceText.Parse` | src/billing/pricing.rs:164-226 | on every text the parser agrees with the text's rational value times a million rounded half up, its wrapping addition included |
| `PriceText.IsPriceExactlyWhen` | src/billing/pricing.rs:164-178 | a price is digits, or digits behind a dot with or without digits before it |
| `PriceText.HalfUpIsNearest` | src/billing/pricing.rs:200-216 | the rounding is to the nearest whole number, a tie upward |
| `PriceText.MicrosByParts` | src/billing/pricing.rs:180-220 | that value is the whole part in micros plus six rounded places of the fraction |
| `PriceText.ParseWhole` | src/billing/pricing.rs:180-199 | the checked digit loop gives the whole part in micros, or nothing exactly when it leaves 128 bits |
| `PriceText.AddFraction` | src/billing/pricing.rs:200-220 | the unchecked digit loop adds the fraction rounded at the seventh digit, wrapping past 128 bits |
| `PriceText.RenderThenParse` | src/billing/pricing.rs:229-235 | a rendered non-negative price parses back to itself |
| `PriceText.NegativeRendering` | src/billing/pricing.rs:512-535 | a negative amount is its magnitude's text behind a sign |
| `PriceText.RenderIsNormalForm` | src/billing/pricing.rs:512-535 | two parsed texts render alike exactly when they are the same price |
| `Usage.StatementForDay` | src/billing/statements.rs:177-228 | the loop over groups computes the draft the lemmas below are about |
| `Usage.DraftAccountsForEveryRow` | src/billing/store.rs:1374-1447 | a draft's line requests and incomplete count add up to the rows of its day, for any order of groups |
| `Usage.RowsOfDayExactly` | src/billing/store.rs:1374-1447 | a day's rows are the ledger's rows of that consumer accepted on that day |
| `Usage.EveryLineChargesItsRows` | src/billing/statements.rs:324-346 | every line of a draft charges the day's billable rows of one key: their summed tokens at the price they were metered at, each part rounded once, parts adding up to the total, which is within 3(n+1)/2 of the rows priced alone |
| `Usage.EveryBillableRowIsCharged` | src/billing/store.rs:1374-1447 | every key with a billable row has such a line, unless its cost does not fit |
| `Usage.BillableExactlyWhen` | src/billing/store.rs:1385-1440 | a row is billable exactly when the pricer, handed it alone, would not refuse it but for its size, and its cached count is not negative |
| `Usage.DraftIsOfItsDay` | src/billing/partner.rs:124-129 | a draft is of its partner and day, closes the delay after the day's end, and an invoice falls due its terms after that end |
| `Usage.TotalFitsExactlyWhen` | src/billing/store.rs:184-198 | a statement's total fits exactly when the sum of its lines does |
| `Usage.ClassificationsAgree` | src/billing/store.rs:1385-1440 | a group the database calls billable is charged unless its cost does not fit; no other refusal happens |
| `Usage.DraftIsValidExactlyWhen` | src/billing/store.rs:1334-1349 | a draft contradicts itself exactly when it is an invoice whose terms lead past the end of the calendar, whatever usage the day has |
| `Usage.DraftIsWritableExactlyWhen` | src/billing/store.rs:674-711 | the store can write a draft exactly when its total fits and its deadline, if it owes one, is in the calendar |
| `Usage.RefusedFromThenOn` | src/billing/partner.rs:124-129 | once a partner's terms are too long for one day they are for every later one |
| `Timefmt.CalendarEndsExactly` | src/ledger/timefmt.rs:19-38 | that calendar ends with the last instant of year 9999, as timestamps count it |
| `Statements.InsertKeepsUnique` | src/billing/store.rs:674-753 | insert-if-absent keeps one statement per consumer and day |
| `Statements.InsertAdds` | src/billing/store.rs:674-753 | it adds exactly that day and changes no row |
| `Statements.InsertKeepsRunExactlyWhen` | src/billing/store.rs:674-753 | a gap-free history stays gap-free exactly when the new day is in it or next after it |
| `Statements.Newest` | src/billing/store.rs:1078-1088 | the newest stated day of a consumer is stated, and no stated day is newer |
| `Walks.RunsAreSound` | src/billing/worker.rs:240-360 | over every run of any number of schedulers that fail, die and restart: one statement per partner and day, none before its cutoff, none the store's checks refuse, none changed once written |
| `Walks.RunsLeaveNoGap` | src/billing/worker.rs:240-392 | over every run with no walk cut short and no success after a failure, stated days are one run from the creation day and no live walk is more than one day ahead |
| `Walks.OrderlyTakeExactlyWhen` | src/billing/worker.rs:248-268 | a walk is taken up orderly exactly when it leaves out no day after its anchor |
| `Walks.OrderlyWriteExactlyWhen` | src/billing/worker.rs:270-282 | a day is written orderly exactly when no day of its walk failed before, or the write changes nothing |
| `Walks.OrderlyRunExactlyWhen` | src/billing/worker.rs:240-282 | an orderly run is one whose every step is orderly where it is taken |
| `Walks.InitIsGood` | src/billing/worker.rs:240-276 | an empty table with nobody walking satisfies both invariants |
| `Walks.FailedWriteIsAFailedDay` | src/billing/worker.rs:283-360 | a day drafted and not written leaves the machine as a day that could not be drafted |
| `Walks.WalksOrLeaves` | src/billing/worker.rs:270-273 | a walking scheduler leaves its partner exactly when no day of the walk is left |
| `Walks.WriteBreaksRunExactlyWhen` | src/billing/worker.rs:302-336 | a write breaks a gap-free history exactly when its day is past the next one |
| `Walks.GapsAreForEver` | src/billing/worker.rs:362-376 | a day behind the newest statement that nobody holds is never stated in any run |
| `Walks.LongTermsAreNeverStated` | src/billing/worker.rs:240-360 | while a partner's terms are too long for a day, no run of any number of schedulers states that day or a later one |
| `Conservation.RunsAreAccurate` | src/billing/statements.rs:177-228 | over every run whose rows arrive within the close delay, each statement accounts for exactly the rows its day holds |
| `Conservation.ArrivalMissedExactlyWhen` | src/billing/statements.rs:177-228 | an arriving row is missed exactly when its day is already stated or drafted |
| `Conservation.InTimeUntilTheCutoff` | src/billing/statements.rs:118-126 | a row accepted at the very end of its day is in time exactly while that day may not be closed |
| `Conservation.InTimeRunExactlyWhen` | src/billing/statements.rs:118-126 | an in-time run is one whose every arrival is in time at its step |
| `Conservation.UsageIsConserved` | src/billing/worker.rs:240-392 | a partner's statements account for exactly its usage rows from its creation day to its newest stated day |
| `Conservation.EveryStatementCountsItsDraftTime` | src/billing/statements.rs:177-228 | over every run, late rows or not, each statement was drafted at a step of it and accounts for exactly the rows its day held then, so never for more than the day holds now |
| `Conservation.LateRowsAreLost` | src/billing/worker.rs:240-392 | a statement that misses a row misses it in every continuation |
| `Worker.BillingStore.WriteStatement` | src/billing/store.rs:674-753 | a draft the store can write is inserted if absent and the result says whether it was; a refusal or a failed write changes nothing, a failed read-back is an error over the inserted statement |
| `Worker.Worker.CloseDay` | src/billing/worker.rs:283-360 | one day ends as created, existing or failed and is counted once; it is written unless its plan fails, and what the tally misses is a new statement that was not read back |
| `Worker.Worker.AnchorOf` | src/billing/worker.rs:362-392 | the walk starts after the newest stated day, or on the day the partner was created, or at the catch-up bound when that is unreadable |
| `Worker.UnreadableCreationIsNotReported` | src/billing/worker.rs:377-391 | in that last case the walk covers 30 days and is not reported as cut short |
| `Worker.Worker.RunDays` | src/billing/worker.rs:270-273 | the table is what writing each day in turn gives, going on after a failure; the tally balances, and is behind the inserts by the new statements that were not read back |
| `Worker.Worker.WalkPartner` | src/billing/worker.rs:248-274 | a partner's walk starts from its anchor and covers the days to close, with that tally |
| `Worker.Worker.CloseDays` | src/billing/worker.rs:240-276 | a pass walks the partners in order, ends at an anchor that cannot be read, does nothing when no day is closable, and keeps that tally |
| `Worker.TallyCountsInsertsExactlyWhen` | src/billing/store.rs:737-753 | a walk's tally counts exactly its inserts if and only if no statement it inserts fails to be read back |
| `Worker.WalkStates` | src/billing/worker.rs:270-273 | a walk states exactly the days of it that did not fail |
| `Worker.WalkStatesWhatIsOwed` | src/billing/worker.rs:248-274 | a walk states a day exactly when it was stated before, or comes after every stated day (with none, not before the partner's creation), lies within the month, and does not fail |
| `Worker.PassStatesWhatIsOwed` | src/billing/worker.rs:240-276 | a pass states, of every partner up to the first unreadable anchor, exactly what it still owes and does not fail, and touches nobody after it |
| `Worker.PassSucceedsExactlyWhen` | src/billing/worker.rs:240-276 | a pass succeeds exactly when every anchor could be read |
| `Worker.PlanStatesExactlyWhen` | src/billing/worker.rs:283-316 | a day does not fail exactly when its read and write succeed, its sums and total fit, and its deadline exists |
| `Worker.WalkGapFreeExactlyWhen` | src/billing/worker.rs:240-282 | one walk leaves a partner gap-free exactly when its failures are a suffix, or, when the month's bound cut it, all of it |
| `Worker.LongTermsFailToTheEnd` | src/billing/worker.rs:270-273 | a walk on which only deadlines past the calendar fail leaves no gap: its failures are a suffix |
| `Refinement.DayIsSteps` | src/billing/worker.rs:283-360 | a day of the loop is a failing step, or a draft and a write, of the machine |
| `Refinement.WalkIsSteps` | src/billing/worker.rs:248-274 | a whole walk of the loop is a run of the machine that ends in the loop's table |
| `Refinement.PassIsSteps` | src/billing/worker.rs:240-276 | a whole pass over the partners, whatever fails in it, is a run of the machine from rest to rest that ends in the loop's table |
| `Refinement.CloseDaysIsSound` | src/billing/worker.rs:240-360 | so a pass keeps one statement per partner and day, none before its cutoff, and changes none that is there |
| `Refinement.LoopGapFreeExactlyWhen` | src/billing/worker.rs:240-282 | a partner's walk by the loop leaves its history gap-free exactly when the failures are a suffix, or, when the month's bound cut it, all of it |
| `Refinement.SkippedDayIsLost` | src/billing/worker.rs:278-282 | a day a walk failed on, or cut off, while stating a later one is stated by no later run of any scheduler |
| `Refinement.OneFailedReadLosesADay` | src/billing/worker.rs:278-282 | one failed read of a partner's first day followed by a success is such a walk, for every partner whose terms leave the next day a deadline |
| `Status.WholeListDecides` | src/billing/status.rs:175-218 | over the whole overdue list, suspended exactly when a complete, non-zero, unpaid invoice is due, and the oldest is named |
| `Status.Select` | src/billing/store.rs:1032-1047 | the query returns exactly the matching rows, ordered by deadline and id |
| `Status.SelectsExactly` | src/billing/store.rs:1032-1047 | the wide query returns the overdue unpaid invoices, incomplete and zero ones included; the snapshot's only the enforceable ones |
| `Status.BeforeIsTimeOrder` | src/billing/store.rs:1032-1047 | the order of the query is the order of deadlines in time, then of ids |
| `Status.PreselectedDecides` | src/apikeys/store.rs:327-385 | the same of the one row the snapshot's subquery pre-selects |
| `Status.SnapshotAgrees` | src/apikeys/store.rs:327-385 | both readings give the same status, even if the list was read with a later clock |
| `Status.SnapshotAgreesExactlyWhen` | src/apikeys/store.rs:327-385 | with any deadline texts they do exactly when the row pre-selected is one that suspends, or no row of the list is |
| `Status.OneStatus` | src/billing/status.rs:175-218 | there is only one such status |
| `Status.DueAsText` | src/apikeys/store.rs:342-344 | comparing a canonical deadline as text decides what comparing the instants does |
| `Status.CanonicalDuesExactlyWhen` | src/ledger/timefmt.rs:34-38 | the deadlines are canonical exactly when each is some instant as `format_ts` writes it |
| `Status.NonCanonicalDueDisagrees` | src/billing/store.rs:266-280 | an input on which they do not: a deadline of empty text, which the column admits and this product does not write |
| `Status.SuspensionPersists` | src/billing/status.rs:158-174 | without payments a suspension persists as time advances and statements are added |
| `StatusViews.StatusesInScope` | src/billing/api.rs:475-521 | one wide read grouped in a map and drained gives every partner the view of its own rows |
| `StatusViews.ViewShowsTheBills` | src/billing/api.rs:524-565 | a view shows the status of the partner's bills, how many of them are overdue, and what those come to exactly when that fits 64 bits |
| `StatusViews.DashboardAgrees` | src/billing/api.rs:475-521 | the grouped rows are those of a narrow read, and give the snapshot's status |
| `StatusViews.AmountShownExactlyWhen` | src/billing/api.rs:544-547 | the overdue amount shown is the sum owed exactly when that fits 64 bits |
| `StatusViews.StatusObserver.ObserveOne` | src/billing/worker.rs:538-556 | an observation is remembered and logged exactly when it changes one made before |
| `StatusViews.StatusObserver.Observe` | src/billing/worker.rs:517-558 | over all ticks every log line is a change and the last one about a partner is what was last seen; unreadable partners stay as they were |
| `Payments.BillTable.MarkPaid` | src/admin/billing.rs:156-229 | one request alone pays an unpaid invoice, reports a payment already there, or refuses, and nothing else changes |
| `Payments.PaysExactly` | src/billing/store.rs:989-1025 | the update fills the four payment columns of an unpaid invoice with what the request named and changes no other row; a reconciliation and a paid invoice are answered as such |
| `Payments.RunsKeepPayments` | src/billing/store.rs:989-1025 | over every interleaving no recorded payment changes, no reconciliation is paid, no row is lost, and what each request was told stays true |
| `Payments.EveryoneHearsOfOnePayment` | src/admin/billing.rs:172-204 | all requests told of a payment on one statement are told of the same one |
| `Payments.LoserIsToldItRecorded` | src/admin/billing.rs:190-227 | the run of two requests that race: both are answered that the payment was recorded, and it is the first one's |
| `Payments.OwnPaymentExactlyWhen` | src/billing/store.rs:989-1025 | in every continuation, a request whose update ran is answered that a payment was recorded, which is its own exactly when the row was unpaid at that update or held an equal payment |
| `Payments.PayingResumesExactlyWhen` | src/billing/status.rs:167-174 | a payment lifts a suspension exactly when it pays the only bill that enforces it |
| `KeyTable.ApiKeyStore.CreateWithPlaintext` | src/apikeys/store.rs:446-512 | create inserts a trimmed, active row, or reports which refusal applies, leaving the table alone |
| `KeyTable.ApiKeyStore.Update` | src/apikeys/store.rs:535-561 | update renames an active key and nothing else; missing and revoked keys are refused |
| `KeyTable.ApiKeyStore.Revoke` | src/apikeys/store.rs:563-585 | revoke sets status and time once; revoking again reports the row unchanged |
| `KeyTable.ApiKeyStore.Rotate` | src/apikeys/store.rs:587-639 | rotate revokes and inserts together, and undoes the revocation when the insert is refused |
| `KeyTable.RunsKeepKeys` | src/ledger/schema.sql:146-193 | any sequence of operations keeps one active key per consumer, unique hashes, revoked exactly with a time, revoked rows final, and consumer, hash and expiry fixed |
| `KeyTable.WritesExactly` | src/apikeys/store.rs:446-639 | what a successful create, update, revoke or rotate writes, column by column; of a plaintext at most twelve characters are stored |
| `KeyTable.RefusesExactlyWhen` | src/apikeys/store.rs:535-639 | which of update, revoke and rotate is refused, exactly when, and with which error |
| `KeyTable.TrimTakesOffSpace` | src/apikeys/store.rs:446-480 | trimming takes white space off both ends and nothing else |
| `KeyTable.RefusedOperationsDoNotMatter` | src/apikeys/store.rs:661-722 | over every sequence of operations, the refused ones can be left out: the table is the same, and none of the others is refused then |
| `KeyTable.AlreadyActiveExactlyWhen` | src/apikeys/store.rs:483-502 | after every run from an empty table, a create is told `AlreadyActive` exactly when, by the replies so far, its consumer has a live key; otherwise a database error exactly when its hash was given before, or else a new key |
| `KeyTable.RepliesTellTheTable` | src/apikeys/store.rs:446-639 | after every run, the replies alone tell each consumer's live key and every hash in use |
| `KeyTable.RotateSucceedsExactlyWhen` | src/apikeys/store.rs:593-639 | rotation succeeds exactly for an existing active key and an unused hash |
| `KeyTable.RotationSwapsOne` | src/apikeys/store.rs:601-631 | a rotation swaps one active row for another of the same name, consumer and expiry, and changes who has an active key for nobody |
| `KeyTable.UpdateStoresATrimmedNameExactlyWhen` | src/apikeys/store.rs:535-556 | update stores the trimmed name exactly when the name given has no white space at either end |
| `KeyTable.CreateStoresATrimmedName` | src/apikeys/store.rs:446-480 | the name and consumer of every key created have none |
| `KeySnapshot.GroupModels` | src/apikeys/store.rs:286-313 | the map of price lists holds each consumer's rows |
| `KeySnapshot.LoadActive` | src/apikeys/store.rs:281-403 | the loop gives each selected key its config, with the price list if no earlier row took it |
| `KeySnapshot.LoadIsLossless` | src/apikeys/store.rs:281-403 | with both constraints the snapshot has one entry per active unexpired key, each with its partner's whole configuration |
| `KeySnapshot.EveryKeyIsServedItsPartner` | src/apikeys/store.rs:315-394 | field by field: exactly the keys that work are served, each with its own name, and its partner's address, mode, status and price list, row for row |
| `KeySnapshot.ModelsLostExactlyWhen` | src/apikeys/store.rs:385-394 | price lists are complete exactly when no two selected keys share a consumer that has models |
| `KeySnapshot.ModelsExactly` | src/ledger/schema.sql:276-302 | a price list holds exactly the partner's rows |
| `KeySnapshot.FromRowsAt` | src/billing/partner.rs:251-255 | collecting rows with distinct hashes keeps every row |
| `KeySnapshot.OneAuth` | src/apikeys/store.rs:281-403 | the authenticating set does not depend on the order of the rows |
| `KeySnapshot.ExpiryAsInstant` | src/apikeys/store.rs:347-348 | comparing the expiry as text decides what comparing the instants does |
| `KeySnapshot.SnapshotStatusAgrees` | src/apikeys/store.rs:366-394 | the status a request is served by is the one the whole overdue list gives |
| `KeySnapshot.LogServiceTransitions` | src/apikeys/store.rs:808-873 | every key whose status changed, or that is new and suspended, is logged once, and nothing else |
| `RefreshMachine.LoadedIsTheAuthSet` | src/apikeys/store.rs:281-403 | a load at one moment is the authenticating set of that moment |
| `RefreshMachine.EveryNodeServesARealState` | src/apikeys/store.rs:235-256 | in every run every instance serves the authenticating set of a state the database was in |
| `RefreshMachine.StartedIsHonest` | src/apikeys/store.rs:235-256 | instances that each loaded once when they started satisfy what that asks of the first state |
| `RefreshMachine.OnlyItsOwnSwapChangesANode` | src/apikeys/refresher.rs:137-151 | over every run without a swap of its own, whatever fails, is committed or is swapped elsewhere, an instance serves what it served |
| `RefreshMachine.CompleteRefreshSees` | src/apikeys/refresher.rs:113-151 | a refresh begun after a commit, own or a sibling's, makes it visible when it completes, whatever runs in between |
| `RefreshMachine.VisibleForGoodExactlyWhen` | src/apikeys/store.rs:661-722 | a visible commit stays visible in every continuation exactly when no refresh in flight loaded before it |
| `RefreshMachine.PollUndoesAMutation` | src/apikeys/store.rs:235-256 | a run in which a mutation is served and then a poll that loaded before it swaps the older set in |
| `RefreshMachine.RevokedKeyIsBack` | src/apikeys/store.rs:565-585 | such a run for a revocation: the key is absent from the snapshot served after it, and in the one served at the end |
| `Timefmt.TimestampWidth` | src/ledger/timefmt.rs:34-38 | every timestamp is 30 characters |
| `Timefmt.TimestampSpells` | src/ledger/timefmt.rs:17-38 | a timestamp spells year, month, day, hour, minute, second and nanoseconds with their separators |
| `Timefmt.MonthsFollowARule` | src/ledger/timefmt.rs:34-38 | the calendar's months, from March on, follow the rule of 153 days to every five months |
| `Timefmt.TimestampRoundTrip` | src/ledger/timefmt.rs:87-94 | parsing undoes formatting |
| `Timefmt.EitherReaderWillDo` | src/ledger/timefmt.rs:83-94 | the same whichever of the two readers takes the text, if each reads back what it accepts of the texts written; `ParseTs` then stands for both |
| `Timefmt.CanonicalText` | src/ledger/timefmt.rs:87-94 | a text is read as canonical exactly when it is some instant's rendering |
| `Timefmt.TextOrderIsTimeOrder` | src/ledger/timefmt.rs:19-38 | for years 0 to 9999 text order is time order and formatting is injective |
| `Timefmt.HourOfStoredRow` | src/ledger/timefmt.rs:58-71 | the hour sliced from a stored timestamp is the instant's hour bucket |
| `Base64Url.Base64UrlEncode` | src/crypto.rs:71-89 | the loop writes the specified encoding |
| `Base64Url.EncodeCarries` | src/crypto.rs:71-89 | an encoding carries exactly its bytes, as one big number, and zero padding bits |
| `Base64Url.OnlyEncodingCarries` | src/crypto.rs:71-89 | it is the only text that does |
| `Base64Url.EncodeInjective` | src/crypto.rs:71-89 | two byte strings never share an encoding |
| `Base64Url.Base64UrlDecode` | src/crypto.rs:94-116 | the reader accepts exactly the encodings and gives back their bytes, although its accumulator overflows |
| `MailMessage.NormalisedLinesAreTheLines` | src/billing/email.rs:272-283 | the three passes find exactly the lines of a text in which CRLF, CR and LF each end one |
| `MailMessage.AcceptedExactlyWhen` | src/billing/email.rs:190-221 | a message is accepted exactly when sender, recipient and subject are present and free of control characters and both addresses have an `@`; the first field at fault is named |
| `MailMessage.WireBytes` | src/billing/email.rs:223-249 | the message is its header lines, a blank line and the body's lines, each ended by CRLF |
| `MailMessage.Stuffed` | src/billing/email.rs:285-302 | the loop doubles a dot after every LF and at the start |
| `MailMessage.StuffingIsByLine` | src/billing/email.rs:285-302 | on lines ended by CRLF that stuffs every line and nothing else |
| `MailMessage.ReceiverReadsItBack` | src/billing/email.rs:554-556 | a receiver following section 4.5.2 of RFC 5321 reads the stuffed data and dot line of every accepted message back exactly, and stops exactly there |
| `MailMessage.WireEndsProperly` | src/billing/email.rs:223-249 | every LF follows a CR and every CR precedes an LF |
| `MailMessage.MessageReadsBack` | src/billing/email.rs:223-249 | the header block of every accepted message parses back to the eight headers, written out, with the given sender, recipient, subject and date, and the body's lines follow the first blank line |
| `Replies.ShortLineIsRead` | src/billing/email.rs:649-689 | a line with at most 8192 bytes before its LF is read whole and leaves exactly the rest, however it is chunked |
| `Replies.ChunksDoNotMatterExactlyWhen` | src/billing/email.rs:649-689 | reading a line does not depend on the chunks exactly up to that bound |
| `Replies.BufferStaysBounded` | src/billing/email.rs:668-689 | the buffer never exceeds 8192 + 1024 bytes |
| `Replies.RepliesDoNotDependOnChunks` | src/billing/email.rs:698-737 | a reply is what its bytes say, whatever the chunks |
| `Replies.LineIsTakenExactlyWhen` | src/billing/email.rs:698-728 | a line goes on or ends a reply exactly by its digits, the code before it and its fourth byte, and which complaint it meets otherwise |
| `Replies.PrintedReadsBack` | src/billing/email.rs:1066-1072 | reading what a relay prints returns its code and texts, cut at 500 characters of UTF-8 |
| `Replies.BoundedKeepsCodePoints` | src/billing/email.rs:833-840 | of a text in UTF-8 the bound keeps the first 500 code points whole, with an ellipsis for the rest |
| `Replies.FirstWordIs` | src/billing/email.rs:753-758 | a line names the capability that stands between its leading white space and the next |
| `Replies.EveryCapabilityIsRecorded` | src/billing/email.rs:747-759 | every capability is recorded, in order, when the joined text has at most 500 characters |
| `Replies.CapabilitiesRecordedExactlyWhen` | src/billing/email.rs:742-759 | for ASCII texts they are recorded exactly when the text fits, or the cut falls in the greeting or behind the first word of its line and a blank, with nothing named below it |
| `Replies.LongGreetingHidesEveryCapability` | src/billing/email.rs:833-840 | with a greeting line of 500 characters, in whatever bytes of UTF-8, none is |
| `Conversation.SaysTheStartOfTheScript` | src/billing/email.rs:520-562 | for every relay the bytes sent are a prefix of the script: EHLO, optional STARTTLS and EHLO, optional AUTH with one retry, MAIL, RCPT, DATA, message, dot, QUIT |
| `Conversation.CredentialsNeverGoInTheClear` | src/billing/email.rs:529-543 | with a credential, bytes in the clear are only those of EHLO and STARTTLS |
| `Conversation.UpgradeStartsAfresh` | src/billing/email.rs:778-806 | data before the handshake ends the session; otherwise capabilities come from a fresh EHLO on the new wire (section 4.2 of RFC 3207) |
| `Conversation.OkExactlyWhenAccepted` | src/billing/email.rs:554-562 | success is reported exactly when the end of the data was accepted |
| `Conversation.UpgradesExactlyWhenOffered` | src/billing/email.rs:524-534 | to a relay that prints an accepted EHLO reply of at most 500 characters, the client next says STARTTLS exactly when a line after the greeting starts with that word, in any letter case |
| `Conversation.WillingRelayIsSentTheMessage` | src/billing/email.rs:520-562 | without a credential, a relay that offers no TLS and agrees to every step is sent the message |
| `Conversation.SecureRelayIsSentTheMessage` | src/billing/email.rs:520-562 | a relay that offers TLS, upgrades with nothing left unread, and agrees to every step is sent the message, after the credential if there is one |
| `Conversation.UnreadableReply` | src/billing/email.rs:674-689 | the error when no byte of a reply comes: lost, failed or closed |
| `Conversation.AnswersExactlyA334` | src/billing/email.rs:815-829 | the other half of AUTH is said exactly to a relay that answers the first with 334 |
| `Conversation.AcceptedCodes` | src/billing/email.rs:520-562 | the codes that let each command go on, written out |
| `Conversation.DomainFollowsTheLastAt` | src/billing/email.rs:742-746 | EHLO names the domain after the sender's last `@`, or localhost |
| `Conversation.PrintedReplyDecides` | src/billing/email.rs:634-646 | a printed reply, however chunked, is accepted exactly for the codes its command accepts, and otherwise refused with its code and text |
| `Conversation.DocumentedRuleExactlyWhen` | src/billing/email.rs:634-646 | the codes accepted are the documented ones for every command but EHLO, MAIL FROM and the end of the data |
| `Conversation.RelayAnswering251` | src/billing/email.rs:634-646 | a relay answering 251 is accepted exactly after EHLO, MAIL FROM, RCPT TO and the end of the data |
| `Session.Session.ReadLine` | src/billing/email.rs:649-689 | the loop over buffer and wire always returns, with the line the specification reads, in a bounded buffer |
| `Session.Session.ReadReply` | src/billing/email.rs:698-737 | the loop over lines returns the specified reply or error |
| `Session.Session.Upgrade` | src/billing/email.rs:778-797 | the wire is replaced only once nothing is left unread |
| `Session.Session.Authenticate` | src/billing/email.rs:815-829 | one AUTH, and one more answer to a 334 |
| `Session.Session.Send` | src/billing/email.rs:520-562 | the client does what the conversation specifies, with the stuffed bytes of its message |
| `LatencyHist.UpperIsAboveExactlyWhen` | benches/ledger_write.rs:179-199 | a sample's bucket ends above it, by at most a hundredth or one microsecond, exactly below ten seconds |
| `LatencyHist.BucketEndsWhereTheNextBegins` | benches/ledger_write.rs:179-199 | buckets end where the next begin, up to ten seconds |
| `LatencyHist.MicrosExactly` | benches/ledger_write.rs:202-204 | a sample is counted in whole microseconds rounded down, the largest 32-bit number standing for all above it |
| `LatencyHist.LatencyHist.Record` | benches/ledger_write.rs:202-208 | recording keeps every counter the saturated count of its samples |
| `LatencyHist.LatencyHist.Merge` | benches/ledger_write.rs:210-216 | merging is recording both sample streams, saturation included |
| `LatencyHist.LatencyHist.Percentile` | benches/ledger_write.rs:218-231 | the value reported for a fraction ends the first bucket at which the running sum reaches the fraction's rank |
| `LatencyHist.RankIsLeastCover` | benches/ledger_write.rs:222-222 | that rank is the least positive one covering the fraction of the count, and within the count for a fraction of at most one |
| `LatencyHist.ReportedIsItsBucket` | benches/ledger_write.rs:218-231 | that is the bucket of the rank's order statistic |
| `LatencyHist.PercentileBracketsExactlyWhen` | benches/ledger_write.rs:179-231 | the reported value brackets the true order statistic exactly when it is under ten seconds |
| `LatencyHist.KthSmallestExists` | benches/ledger_write.rs:218-231 | every rank has an order statistic |
| `LatencyHist.KthSmallestIsOne` | benches/ledger_write.rs:218-231 | and only one |

## Left out

- Retention: pruned usage rows; conservation is about the ledger a draft read.
- Calendar and timezone rules beyond a fixed offset; clocks and days outside years 0 to 9999. The one computed instant that can leave them, a deadline, is modelled.
- Worker.Worker.CloseDay: counts as failed, and goes on after, two deadlines over which the `time` crate panics and the tick ends without writing: terms of more minutes than its `Duration` holds, and a deadline that is in year 9999 locally and in year 10000 in UTC.
- Timefmt.TimestampRoundTrip: which texts the `time` crate's readers accept beyond those `format_ts` writes; nothing is assumed about them unless a lemma says so.
- Timefmt.CanonicalText: a signed or wider year the fixed layout's reader may admit; the model leaves such a text to the fallback.
- Claiming, leasing and retrying statement email, and the rendering of a statement's body: branches and formatting around the send.
- A partner whose creation time cannot be read: it is walked from the catch-up bound, and the gap-free theorems are about partners whose creation time is known.
- SHA-256, HMAC, key generation and TLS: the hash is a parameter, a plaintext is given, an upgrade succeeds or fails.
- SQLite's locking and journal: a transaction is one step.
- Connecting: name resolution, timeouts and the settings check before the first byte.
- Standard base64 for AUTH: the encoded credential is given.
- Replies.CapabilitiesRecordedExactlyWhen: for ASCII texts, since outside ASCII there is more white space, and a word may end in an ellipsis of its own.
- Replies.EveryCapabilityIsRecorded: splits a line into words at ASCII white space only, where the source knows Unicode's.
- Relay text that is not UTF-8: it is decoded lossily, the model keeps its bytes.
- The header date's rendering: any text without a line break.
- LatencyHist.LatencyHist.Percentile: computes the rank over the reals, where the source's product of two 64-bit floats may round, and counts with unbounded integers.
- Worker.Worker.CloseDays: models each day's rows as read from one ledger during a pass; rows arriving between days are modelled in `Walks`.
- HTTP routing, scopes, JSON views, configuration, start-up and shutdown.
