# Proofs about the revenue context graph

A Dafny model of the algorithms between the repository's database reads: how a due phrase becomes a
date, how the command-line tool answers a backfill on the user's own plan, how an account's stage is
read and planned, and how histories are cut down to what a reader can use.

- **Dates** (`Calendar`, `CivilDates`, `IsoText`). A civil date is a day number. The calendar is
  defined by counting month lengths; the closed form of ECMA-262 section 21.4.1 is proved equal to it.
  Weekdays are tied to dates by Zeller's congruence.
  `addBusinessDays` is the source's loop, proved against a count of weekdays and against a closed form.
- **Due phrases** (`DueDate`, `DueDateCounts`, `DueDateLines`, `DueDateLaws`, `DueDateBounds`, `DueDateMeaning`,
  `DueDateAnswers`).
  A `Phrase` has one constructor for each rule of `match`, and `Match` is the function from it.
  `Means` says what a phrase asks of a date by reading dates: weekday, week, month, day and place
  against the anchor, and for a year left unsaid, whether such a day lies at most 60 days back;
  a count is what its words say (`CountIs`).
  `Match` is proved to return a date exactly when that date has the meaning and `InRange`, read off
  the phrase and the anchor, holds; so its nulls are pinned down as well as its dates.
- **The backfill loop** (`Backfill`, `BackfillLaws`, `BackfillWaits`, `BackfillSays`,
  `BackfillClosure`). A transition system in which
  one step is the code between two awaits; the environment chooses which await ends, how, and every
  reading of the clock. The laws hold over every schedule. The closures over the shared variables are
  also written in place and tied to the steps. An answer counts as accepted when its post resolves for
  the client: one the server took whose reply was lost is a failed attempt here, and is sent again.
- **Account stages** (`Pipeline`). The fold that reads a stage, and the plan of moves, proved to reach
  an open target with the fewest changes possible.
- **Evidence** (`CiteKey`, `Excerpt`, `Evidence`). The 32-bit hash behind cite tokens, the window
  around a quote, and the ranked compression of an account.
- **Read paths** (`Timeline`, `Rollups`, `Signals`, `Attention`, over `Sorting` and `Tally`). Loops
  over lists, each proved against a declarative description of what it keeps or counts.

`dafny verify dfyconfig.toml` checks the project.

## Where the code and its own words differ

The model follows the code. Each difference below is a lemma.

- `lastDayOfMonth` passes its year to `Date.UTC` unpatched, so year 0's February has 28 days
  (`CivilDates.LastDayIsReal`). No four-digit year is touched.
- The ceiling on durations (dateResolve.ts:43-45) holds for a bare numeral only; behind a word such as
  "next" a count of any size passes (`DueDateBounds.CountCeiling`, `CeilingLeaks`).
- `shiftIsoDate` carries an impossible day into the next month (`IsoText.ImpossibleDayCarries`),
  where `validCivil` refuses it.
- "end of september" rolls on with the 1st and "september" with the 30th
  (`DueDateBounds.EndOfMonthVersusMonth`, `SeptembersDiffer`); a bare "february" is lost once a leap
  day is more than 60 days gone (`DueDateBounds.BareMonthNothing`, `LeapFebruaryIsLost`).
- The plan for an exit promises "so the account reads `target` afterwards" (pipeline.ts:140). It does
  exactly under the condition of `Pipeline.ExitPlanReaches`; `ExitPlanCanMiss` is a case where it does not.
- A plan limit uses up a retry (`BackfillLaws.GivenUpAfter`, `GivenUpAfterOneFailure`), and a worker
  sleeps once, so it may begin a call while another's hit still has it wait: exactly when it wakes less
  than a wait after some hit (`BackfillWaits.BeginsInsideTheWait`, `CallsInsideTheWait`).
- `progressLine` is documented as possibly null and never is: `Backfill.ProgressLine` returns a line
  from every input.
- "Only count moves that push the date OUT" (counterEvidence.ts:263): every move is counted
  (`Signals.CountsEveryMove`, `PullingInIsCounted`). "Works on custom stages" (line 283): a stage off the ladder hides a fall
  (`Signals.UnknownStageHidesFall`).
- `by_value` takes each entity's first row for its most recent (query.ts:482), which rows ranked by
  relevance need not satisfy (`Rollups.CountedIsLatest`, `RankedRowsCountStale`).
- The split of the attention budget can leave room unused while items are waiting (`Attention.BudgetFills`).

## Model

| member | source | states |
|---|---|---|
| `Calendar.MakeDayCounts` | packages/core/src/dateResolve.ts:83-89 | The closed form of ECMA-262's MakeDay, for any month and day overflow, is the calendar got by counting month lengths |
| `Calendar.BuildThenRead` | packages/core/src/dateResolve.ts:83-89 | Building a real date and reading year, month and day back gives the same three numbers |
| `Calendar.ReadThenBuild` | packages/core/src/dateResolve.ts:83-89 | Every day number reads as a real date, and building that date gives the day back |
| `Calendar.AddOneIsSuccessor` | packages/core/src/dateResolve.ts:90-92 | Adding one day is the calendar successor across month and year ends |
| `Calendar.SameOrder` | packages/core/src/dateResolve.ts:83-92 | Day numbers order exactly as their (year, month, day) triples |
| `CivilDates.CivilOnLine` | packages/core/src/dateResolve.ts:83-98 | `civil` with a day up to `lastDayOfMonth` lands on that day of that month, two-digit years included |
| `CivilDates.LastDayIsReal` | packages/core/src/dateResolve.ts:96-98 | `lastDayOfMonth` is right for every month but one: year 0's February, exactly |
| `CivilDates.WeekdayOfDate` | packages/core/src/dateResolve.ts:90-95 | Every date falls on the weekday Zeller's congruence gives its year, month and day |
| `CivilDates.AddMonthsLands` | packages/core/src/dateResolve.ts:100-105 | `addMonths` lands in month m+n, for negative n too, on the smaller of the day and that month's last day |
| `CivilDates.AddMonthsMonotone` | packages/core/src/dateResolve.ts:100-105 | A later date never gives an earlier one after adding the same months |
| `CivilDates.AddMonthsGrows` | packages/core/src/dateResolve.ts:100-105 | More months give a later date, strictly |
| `CivilDates.AddMonthsCompose` | packages/core/src/dateResolve.ts:100-105 | a then b months equals a+b exactly when the middle month did not clamp below what the last allows; otherwise at most 3 days short, and always equal up to the 28th |
| `CivilDates.MonthsTile` | packages/core/src/dateResolve.ts:106-113 | The day after a month's end is the next month's start (except year 0's February), and each date is inside its own month |
| `CivilDates.QuartersTile` | packages/core/src/dateResolve.ts:114-122 | The day after a quarter's end is the next quarter's start, and each date is inside its own quarter |
| `CivilDates.MondayOfWeekIsUnique` | packages/core/src/dateResolve.ts:124-127 | `mondayOfWeek` is the one Monday in (c-7, c] |
| `CivilDates.NextWeekdayIsLeast` | packages/core/src/dateResolve.ts:129-132 | `nextWeekdayAfter` is the least later date with that weekday |
| `CivilDates.WeekdayNextWeekIsFixed` | packages/core/src/dateResolve.ts:140-143 | `weekdayNextWeek` is that weekday in the week after the anchor's, the same for two anchors exactly when they share a week |
| `CivilDates.WeekdayNextWeekOrNext` | packages/core/src/dateResolve.ts:129-143 | It is the next such weekday, plus seven days exactly when that one is still in the anchor's week |
| `CivilDates.EndOfThisWeekIsLeast` | packages/core/src/dateResolve.ts:154-157 | `endOfThisWeek` is the least Friday on or after the anchor |
| `CivilDates.WorkingWeek` | packages/core/src/dateResolve.ts:144-152 | Business days are the first five days of a week from its Monday, and no others |
| `CivilDates.AddBusinessDays` | packages/core/src/dateResolve.ts:144-152 | The day-by-day loop ends on the date with exactly min(n, 3650) weekdays behind it, and equals a closed form in n and the start weekday |
| `CivilDates.NthWeekdayIsLeast` | packages/core/src/dateResolve.ts:144-152 | The n-th weekday is the least date with n weekdays in (start, d] |
| `CivilDates.BusinessDaysCount` | packages/core/src/dateResolve.ts:144-152 | The closed form is the n-th weekday after the start, for every n |
| `CivilDates.BusinessDaysMonotone` | packages/core/src/dateResolve.ts:144-152 | A later start never gives an earlier n-th weekday |
| `CivilDates.BusinessDaysCompose` | packages/core/src/dateResolve.ts:144-152 | a then b business days is a+b, below the ceiling |
| `CivilDates.BusinessDaysCappedCompose` | packages/core/src/dateResolve.ts:144-152 | With the ceiling, additive exactly when a+b is at most 3650 or one of them is 0 |
| `IsoText.IsoReads` | packages/core/src/dateResolve.ts:252-256 | A date's text is YYYY-MM-DD and parses back to the same date |
| `IsoText.IsoOrder` | packages/core/src/dateResolve.ts:252-256 | Text order is date order, and different dates have different texts |
| `IsoText.ReadText` | packages/core/src/dateResolve.ts:240-244 | The three numbers written as text are the three numbers read |
| `IsoText.WriteText` | packages/core/src/dateResolve.ts:240-244 | Any text of the accepted shape is the text of the numbers read from it |
| `IsoText.ShiftAdds` | packages/core/src/dateResolve.ts:240-244 | Shifting the text of a date is adding that many days to the date |
| `IsoText.ShiftComposes` | packages/core/src/dateResolve.ts:240-244 | Shifting by a then by b is shifting by a+b |
| `IsoText.ShiftByNothing` | packages/core/src/dateResolve.ts:240-244 | Shifting by 0 returns the text exactly when it is a real date from year 1000 on |
| `IsoText.ShiftBack` | packages/core/src/dateResolve.ts:240-244 | Shifting by n and then by -n returns the text, on real dates |
| `IsoText.ImpossibleDayCarries` | packages/core/src/dateResolve.ts:240-244 | A February day that does not exist is carried into March instead of refused, for every such day |
| `DueDateLines.ValidLands` | packages/core/src/dateResolve.ts:393-397 | `validCivil` accepts exactly the real dates of 1970 to 2999 and returns that date |
| `DueDateLines.RollWindow` | packages/core/src/dateResolve.ts:407-412 | A rolled date is between 60 days before the anchor and 365 after |
| `DueDateLines.RollNothing` | packages/core/src/dateResolve.ts:407-412 | `rollToFuture` is null exactly when the date is not real this year, or has gone and is a 29 February or in the last year of the range |
| `DueDateLines.OrdinalLands` | packages/core/src/dateResolve.ts:498-508 | "the 31st" is this month's day when it is still ahead, else next month's, cut to its last day |
| `DueDateLines.QuarterLands` | packages/core/src/dateResolve.ts:557-565 | A named quarter's start and close on the month line |
| `DueDateCounts.CountIsRead` | packages/core/src/dateResolve.ts:374-390 | A count is read exactly when a lone article (one), or a lone number among fillers and articles, says it; null otherwise |
| `DueDateCounts.CountsSaid` | packages/core/src/dateResolve.ts:374-390 | An article is one; "the next two" and "a couple of" are two |
| `DueDateLaws.MatchMonotone` | packages/core/src/dateResolve.ts:441-647 | For every phrase, a later anchor never gives an earlier due date |
| `DueDateLaws.ResolveMonotone` | packages/core/src/dateResolve.ts:423-439 | The same for the stored texts, compared as text |
| `DueDateLaws.OrdinalMonotone` | packages/core/src/dateResolve.ts:498-508 | ... for "the n-th", across months of different lengths |
| `DueDateLaws.WeekOfMonthMonotone` | packages/core/src/dateResolve.ts:569-587 | ... for "second week of ...", across the switch to next month |
| `DueDateLaws.PartMonotone` | packages/core/src/dateResolve.ts:488-495 | ... for "early september", across the year it rolls into |
| `DueDateLaws.BareMonotone` | packages/core/src/dateResolve.ts:622-634 | ... for a bare month |
| `DueDateMeaning.MatchMeans` | packages/core/src/dateResolve.ts:441-647 | A resolved date has the weekday, month, day and place against the anchor that its phrase asks for, the year included when none was said |
| `DueDateMeaning.MeaningIsUnique` | packages/core/src/dateResolve.ts:441-647 | No two dates have what one phrase asks for |
| `DueDateAnswers.AnswersInRange` | packages/core/src/dateResolve.ts:441-647 | Null is returned only when the phrase and anchor are out of range or no date has the meaning; nothing out of range is ever answered |
| `DueDateAnswers.MatchIsTheMeaning` | packages/core/src/dateResolve.ts:441-647 | The resolver returns a date exactly when it is what the phrase means and phrase and anchor are in range, so every null is accounted for, from any anchor after year 0's February |
| `DueDateAnswers.ResolveIsTheMeaning` | packages/core/src/dateResolve.ts:423-439 | The same of the stored text: it is the meaning's, or nothing |
| `DueDateBounds.OnOrAfterAnchor` | packages/core/src/dateResolve.ts:441-647 | A phrase that names no year and no month is never due before it was said |
| `DueDateBounds.AtMostSixtyDaysBack` | packages/core/src/dateResolve.ts:407-647 | A phrase that states no year is never due more than 60 days before it was said |
| `DueDateBounds.CountCeiling` | packages/core/src/dateResolve.ts:374-390 | A count passes the ceiling exactly when a numeral over it stands beside other words |
| `DueDateBounds.CeilingLeaks` | packages/core/src/dateResolve.ts:374-390 | "n days" is held to the ceiling and "next n days" is not, for every n |
| `DueDateBounds.DurationReach` | packages/core/src/dateResolve.ts:606-617 | Every other duration resolves within 5110 days of the anchor |
| `DueDateBounds.BareMonthNothing` | packages/core/src/dateResolve.ts:622-634 | From any anchor, a bare month resolves to nothing exactly outside 1970 to 2999, or more than 60 days past its close in a leap February or the last year |
| `DueDateBounds.LeapFebruaryIsLost` | packages/core/src/dateResolve.ts:622-634 | On 1 May 2028 "february" resolves to nothing and "end of february" to 28 February 2029 |
| `DueDateBounds.EndOfMonthVersusMonth` | packages/core/src/dateResolve.ts:488-634 | From any anchor, when "end of september" and "september" resolve alike, exactly |
| `DueDateBounds.AYearApart` | packages/core/src/dateResolve.ts:488-634 | Between the two rolls they are both answered, a year apart |
| `DueDateBounds.SeptembersDiffer` | packages/core/src/dateResolve.ts:488-634 | On 15 November 2026 they are 30 September 2026 and 30 September 2027 |
| `BackfillLaws.StepKeepsInv` | apps/cli/src/backfill.js:109-143 | Every step of the protocol keeps its invariant, the clock and the shared wait only going forward |
| `BackfillLaws.EveryRun` | apps/cli/src/backfill.js:109-143 | The invariant holds in every state of every interleaving |
| `BackfillLaws.LeasesOnlyWhenSettled` | apps/cli/src/backfill.js:133-142 | A new page is leased only when no call is in flight, and every leased call has exactly one accepted answer by then |
| `BackfillLaws.LoopTurns` | apps/cli/src/backfill.js:133-142 | Exactly which steps lead to a lease, a pause, a resume, the barrier, the end and a throw |
| `BackfillLaws.DoneAtTheEnd` | apps/cli/src/backfill.js:133-142 | A run that is done was told so by the server with its last step, and nothing follows |
| `BackfillLaws.NeverStuck` | apps/cli/src/backfill.js:109-143 | In every run, until it is done or has thrown, some step can come next |
| `BackfillLaws.AnsweredOnce` | apps/cli/src/backfill.js:115-132 | No call is answered twice, and only a call that returned was answered |
| `BackfillLaws.AnsweredIsAccepted` | apps/cli/src/backfill.js:117-122 | `answered` is the number of answers the server accepted |
| `BackfillLaws.AttemptsBounded` | apps/cli/src/backfill.js:115-132 | No call takes more attempts than its plan-limit hits plus three |
| `BackfillLaws.GivenUpAfter` | apps/cli/src/backfill.js:123-130 | An error answer follows at least three attempts; plan limits among the first two replace retries one for one |
| `BackfillLaws.WaitGrows` | apps/cli/src/backfill.js:124-128 | `waitUntil` never decreases over a run and never exceeds now plus the wait |
| `BackfillLaws.NoticesApart` | apps/cli/src/backfill.js:124-128 | Any two plan-limit messages are at least a full wait apart |
| `BackfillLaws.LinesApart` | apps/cli/src/backfill.js:111-114 | Consecutive printed lines are min(progressMs, 1000) apart, equal ones progressMs |
| `BackfillSays.ProgressLineTells` | apps/cli/src/backfill.js:97-102 | Each reading of the server has its one line, the finished state first, then the total, then the answers |
| `BackfillSays.LineIsPrintedWhenDue` | apps/cli/src/backfill.js:111-114 | Over runs, a page's line is printed exactly when nothing was yet, or min(progressMs, 1000) has passed and it is new or progressMs old |
| `BackfillSays.OnlyPagesPrint` | apps/cli/src/backfill.js:139-139 | No other step prints a progress line |
| `BackfillSays.NoticeWhenNoneIsOn` | apps/cli/src/backfill.js:124-126 | Over runs, a plan-limit hit is announced exactly when no earlier hit's wait is still on, and nothing else is |
| `BackfillLaws.GivenUpAfterOneFailure` | apps/cli/src/backfill.js:116-130 | A run in which a call is given up after a single failure of its own, two plan limits having used its retries |
| `BackfillWaits.WaitIsItsHits` | apps/cli/src/backfill.js:124-128 | In every run the shared wait reaches past a time exactly when some plan-limit hit's own wait does |
| `BackfillWaits.OnlyTheseBegin` | apps/cli/src/backfill.js:116-119 | A call begins only at the top of the attempt loop or out of a sleep |
| `BackfillWaits.LoopTopChecks` | apps/cli/src/backfill.js:116-130 | At the top of the loop a worker calls exactly when the wait is over and else sleeps to its end; it gives up exactly at an ordinary failure with two behind it |
| `BackfillWaits.BeginsInsideTheWait` | apps/cli/src/backfill.js:117-128 | A call begins inside the wait exactly when its worker comes out of its sleep less than a wait after some hit; at the top of the loop never |
| `BackfillWaits.CallsInsideTheWait` | apps/cli/src/backfill.js:117-128 | Some run has such a call exactly when the wait is not zero; the witness wakes after its own wait while a later hit's goes on |
| `BackfillClosure.Closure.Announce` | apps/cli/src/backfill.js:111-114 | `say`, in place, is the protocol's step on the shared variables |
| `BackfillClosure.Closure.OnPlanLimit` | apps/cli/src/backfill.js:124-128 | The plan-limit branch, in place, is the protocol's step |
| `BackfillClosure.Closure.AttemptEnds` | apps/cli/src/backfill.js:117-130 | The end of an attempt, in place: accepted, plan limit or ordinary failure leaves the shared variables and the worker as the protocol's step does |
| `BackfillClosure.ParseCodex` | apps/cli/src/backfill.js:50-58 | The answer is the last message and the last usage counted; no message is an error, and so is a null line |
| `Pipeline.FurthestOf` | packages/core/src/pipeline.ts:132-137 | The fold reads the first of the highest-ranked stages, and nothing when nobody has one |
| `Pipeline.RankIsLadder` | packages/core/src/pipeline.ts:28-76 | A stage ranks by its place on the ladder; the exits are the rest, above it, churned above the two that tie |
| `Pipeline.ClosedReading` | packages/core/src/pipeline.ts:132-137 | An exit is read exactly when nobody is live, and then it is the first of the furthest |
| `Pipeline.NothingToRead` | packages/core/src/pipeline.ts:132-137 | Nothing is read exactly when nobody is there, or someone has no stage and all others have left |
| `Pipeline.OpenReading` | packages/core/src/pipeline.ts:132-137 | An account reads an open stage exactly when someone is at it and no live person is further along |
| `Pipeline.PlanAccountStage` | packages/core/src/pipeline.ts:149-169 | The loop over the Map builds the plan the laws below are about |
| `Pipeline.PlanMoves` | packages/core/src/pipeline.ts:149-169 | Whom a plan moves, exactly, the primary being the first live person or the first of all, and that everyone goes to the target |
| `Pipeline.PlanIs` | packages/core/src/pipeline.ts:149-169 | The whole plan: whoever must move, in order, from where they stand; or the one primary when nobody is or gets to an open target |
| `Pipeline.PlanRecords` | packages/core/src/pipeline.ts:149-169 | Every move names one of the people with the stage they were at |
| `Pipeline.OpenPlanReaches` | packages/core/src/pipeline.ts:139-169 | After an open plan the account reads the target |
| `Pipeline.OpenPlanIsSmallest` | packages/core/src/pipeline.ts:139-169 | No reassignment that makes the account read the target changes fewer people |
| `Pipeline.OpenPlanChanges` | packages/core/src/pipeline.ts:139-169 | The plan changes exactly as many people as it has moves, so that bound is reached |
| `Pipeline.FurtherAlongMustChange` | packages/core/src/pipeline.ts:159-162 | Whoever is further along changes in every reassignment that reaches the target |
| `Pipeline.ReplanIsEmpty` | packages/core/src/pipeline.ts:139-169 | Planning again after applying a plan moves nobody, for any target |
| `Pipeline.ExitPlanMoves` | packages/core/src/pipeline.ts:155-158 | An exit moves exactly the live people and leaves nobody live |
| `Pipeline.ExitPlanReaches` | packages/core/src/pipeline.ts:132-158 | After an exit the account reads it exactly when someone is at it and no earlier exit outranks it or ties from an earlier place |
| `Pipeline.ExitPlanCanMiss` | packages/core/src/pipeline.ts:139-158 | With one churned contact the account goes on reading churned |
| `CiteKey.CiteKey` | packages/core/src/evidenceDetail.ts:433-438 | The step-by-step 32-bit hash gives the token of the exact base-31 polynomial of the whole reference, wrapped once |
| `CiteKey.WrapStep` | packages/core/src/evidenceDetail.ts:436 | Wrapping at each step is wrapping the exact step |
| `CiteKey.PolynomialJoins` | packages/core/src/evidenceDetail.ts:436 | Each code unit weighs 31 to the number of units after it |
| `CiteKey.Wrap32Is` | packages/core/src/evidenceDetail.ts:436 | Wrapping gives the one signed 32-bit number a multiple of 2^32 away |
| `CiteKey.DigitsInOrder` | packages/core/src/evidenceDetail.ts:437 | The base-36 digits are 0-9 and then a-z |
| `CiteKey.TokenShape` | apps/frontend/src/components/AgentMarkdown.tsx:16 | Every token is a 'c' and four of [a-z0-9], so the renderer recognises it, and decodes to the residue modulo 36^4 |
| `CiteKey.TokenCollides` | packages/core/src/evidenceDetail.ts:433-438 | Two references share a token exactly when their wrapped hashes agree modulo 36^4 |
| `Excerpt.ExcerptAround` | packages/core/src/evidenceDetail.ts:138-171 | The excerpt is around the first match, in the one window the rules allow, and nothing exactly when nothing matches |
| `Excerpt.WindowUnique` | packages/core/src/evidenceDetail.ts:151-156 | The rules allow one window only |
| `Excerpt.WindowBounded` | packages/core/src/evidenceDetail.ts:153-156 | It reaches at most max(lines, 12) each way |
| `Excerpt.SteppedOverAreOwn` | packages/core/src/evidenceDetail.ts:155-156 | Everything stepped over past the minimum is the same speaker's or nobody's |
| `Excerpt.StopsAtAnother` | packages/core/src/evidenceDetail.ts:153-156 | The window goes on until somebody else named has spoken, and no further than the minimum when that is inside it or the quote has no speaker |
| `Excerpt.ShownRowsAre` | packages/core/src/evidenceDetail.ts:157-170 | The rows shown are those of the window with words, in order, and the quote |
| `Excerpt.OneQuote` | packages/core/src/evidenceDetail.ts:166 | Exactly one row shown is the quote |
| `Sorting.SortSorts` | packages/core/src/context.ts:338 | Sorting orders the list, for any strict weak ordering |
| `Sorting.SortStable` | packages/core/src/evidence.ts:270-272 | What the ordering does not separate keeps its order |
| `Sorting.SortPlaces` | packages/core/src/evidence.ts:270-272 | Each member ends up at the index that counts those that precede it |
| `Tally.CountsAreExact` | packages/core/src/query.ts:476-478 | The counting idiom keeps one entry a key, each exact, adding up to the input |
| `Tally.CountsInOrder` | packages/core/src/query.ts:476-478 | A new key goes last and a known one keeps its place |
| `Timeline.AssembleTimeline` | packages/core/src/context.ts:324-339 | The Map merge and sort build the timeline the law below is about |
| `Timeline.TimelineKeeps` | packages/core/src/context.ts:324-339 | An observation is kept exactly when it has an id and is in the window, notable or among the latest eight; newest first, each once |
| `Timeline.TimelineOrder` | packages/core/src/context.ts:324-339 | Events of one time stand notable ones first and otherwise as they came |
| `Timeline.CompressTimeline` | packages/core/src/context.ts:407-428 | The loop gives one item for each recent event and then one count for each older kind |
| `Timeline.TieredByAge` | packages/core/src/context.ts:412-424 | An event under 7 days old is told in full, under 30 in brief, and no other is an item |
| `Timeline.TimelineConserved` | packages/core/src/context.ts:407-428 | The items stand for as many events as came in, one count a kind, each exact |
| `Timeline.FullBeforeBrief` | packages/core/src/context.ts:415-421 | On a newest-first timeline every full item is before every brief one, each tiered by its own age |
| `Rollups.GroupByEntity` | packages/core/src/query.ts:412-423 | One group an entity, in the order first met, with its exact row count and its first latest row; the counts add up to the rows |
| `Rollups.Rollup` | packages/core/src/query.ts:467-492 | The one-pass rollups count kinds, sources and the value of each entity's first row |
| `Rollups.RollupsAddUp` | packages/core/src/query.ts:476-492 | Kinds and sources each add up to the rows, values to the entities counted |
| `Rollups.FirstsAre` | packages/core/src/query.ts:479-487 | `valueByEntity` holds one row for each entity, the first it has |
| `Rollups.ValuesCountEntities` | packages/core/src/query.ts:479-492 | As many values are counted as there are groups |
| `Rollups.CountedIsLatest` | packages/core/src/query.ts:479-487 | The row whose value is counted is the representative exactly when no row of the entity is later than its first |
| `Rollups.NewestFirstCountsLatest` | packages/core/src/query.ts:479-487 | On newest-first rows it always is |
| `Rollups.RankedRowsCountStale` | packages/core/src/query.ts:479-487 | On rows ranked by relevance it need not be: a stale stage is counted |
| `Signals.CloseDateSlipped` | packages/core/src/counterEvidence.ts:252-281 | A signal exactly when the value changed, unless both ends parse and the last is not after the first, with the number of changes, the runs and the latest one |
| `Signals.SlipReports` | packages/core/src/counterEvidence.ts:269-279 | The report is the number of changes, the values in turn from first to current, and the row since which the current one has stood |
| `Signals.PulledBackIs` | packages/core/src/counterEvidence.ts:265-267 | Between two dates, silence exactly when the last is not after the first |
| `Signals.RunsAre` | packages/core/src/counterEvidence.ts:256-260 | The collapsed history starts and ends where the history does, has no repeats, and is one longer than the changes |
| `Signals.ReobservingChangesNothing` | packages/core/src/counterEvidence.ts:256-269 | Observing the current value again, any number of times, changes nothing reported |
| `Signals.CountsEveryMove` | packages/core/src/counterEvidence.ts:263-269 | The moves reported are the outward ones exactly when every change in the history was outward |
| `Signals.PullingInIsCounted` | packages/core/src/counterEvidence.ts:263-269 | A date put off to October and pulled in to mid-September is reported as two moves, one of them outward |
| `Signals.StageRegressed` | packages/core/src/counterEvidence.ts:284-296 | The earliest of the deepest drops between neighbours of known rank, and nothing exactly when there is none |
| `Signals.WorstIs` | packages/core/src/counterEvidence.ts:284-296 | The rows reported are neighbours of known rank, no drop is deeper and none as deep is earlier |
| `Signals.NothingDrops` | packages/core/src/counterEvidence.ts:284-296 | Silence exactly when no neighbours of known rank drop |
| `Signals.FallIsSeen` | packages/core/src/counterEvidence.ts:284-296 | With every stage known, a deal that ever fell overall is reported |
| `Signals.UnknownStageHidesFall` | packages/core/src/counterEvidence.ts:284-296 | A stage off the ladder hides the fall around it |
| `Attention.MeetingsStillOn` | packages/core/src/attention.ts:48-69 | The two passes keep exactly the rows still on, in order |
| `Attention.OneRowPerSlot` | packages/core/src/attention.ts:48-69 | A slot has exactly one row when it was scheduled and never taken off, and none otherwise |
| `Attention.KeptAre` | packages/core/src/attention.ts:48-69 | A row is kept exactly when it is scheduled, its slot is never taken off anywhere in the list and it is the first of that slot |
| `Attention.KeptInOrder` | packages/core/src/attention.ts:48-69 | Each row kept comes right after those kept of the rows before it |
| `Attention.StillOnIdempotent` | packages/core/src/attention.ts:48-69 | Filtering twice is filtering once |
| `Attention.ItemList.DropAll` | packages/core/src/attention.ts:341-346 | The backward splice in place is the order-preserving filter |
| `Attention.WithoutKeeps` | packages/core/src/attention.ts:341-346 | Dropped records are gone and every other item is left as often as it was |
| `Attention.WithoutJoins` | packages/core/src/attention.ts:341-346 | What is left of two lists joined is what is left of each, so the order is kept |
| `Attention.BudgetHolds` | packages/core/src/attention.ts:381-388 | The lead items come first, upcoming calls and commitments all shown when there is room for 27 more, and the limit is never passed |
| `Attention.AllShown` | packages/core/src/attention.ts:381-388 | With room for everything, all of it is shown: flags, calls, warm accounts, commitments, going dark, decayed |
| `Attention.LeadsAreCapped` | packages/core/src/attention.ts:381-381 | Flags past the fifteenth and warm accounts past the twelfth make no difference |
| `Attention.BudgetFills` | packages/core/src/attention.ts:381-388 | All room is used exactly unless going-dark overflows its half while decayed facts fall short of theirs |
| `Evidence.CompressAccount` | packages/core/src/evidence.ts:246-323 | One pass counts every type and finds the earliest and latest time; the note is there exactly when something was left out, with the true numbers |
| `Evidence.KeyActivityIsTop` | packages/core/src/evidence.ts:265-289 | An observation is shown exactly when fewer than `budget` have a higher score, or the same and a later time, or neither later and came first; at that place, its fields and reference intact |
| `Evidence.NothingBetterOmitted` | packages/core/src/evidence.ts:265-272 | Places follow that order strictly, so nothing left out stands before anything shown |
| `Evidence.EverythingIsCounted` | packages/core/src/evidence.ts:252-264 | Each type's count is the number of observations filed under it, unnamed ones under "other", and they add up to the history |

## Left out

- Text handling: `normalize`, French phrases, `unwrap`, `extractDuePhrase`, the patterns of `match`, `norm` and quote location. Phrases arrive classified, transcript lines with their speaker, whether they match and whether they have words.
- Time zones: `civilDateOf` rests on `Intl`, so a model anchor is already a civil date. The trimming of the text given to `shiftIsoDate` is left out with the rest of the text handling.
- The finite range of ECMA-262 time values: day numbers are unbounded here. Past that range the source gives null, and so does `Resolve`, since no such date has a four-digit year.
- `dueDateAgreeingWith` and `isoDateIn`: comparisons around the functions modelled.
- `normalizeStage` and the table of older stage names: people arrive with the stage it found, or none.
- The reading of Claude's output, `commandFor`, the child process, the server and the messages' wording. The outcome of a call is the environment's choice.
- A refused error answer makes the run throw; what the remaining workers go on doing is modelled, but nothing is claimed about the total then.
- The awaiting loops of `runBackfill` and `answerOne` are steps of the transition system, since a Dafny method cannot be interrupted; only the blocks between awaits are also written in place.
- `Rollups.GroupByEntity`: the final sort of the groups by their latest time and the cut to `limit` are not modelled, and neither are names, firmographics and privacy filters.
- `Timeline.CompressTimeline`: counts come out in the order their kinds were first seen; the source's record would list integer-like kinds first. The fields copied into an item, and `collapseMeetingDupes` before it, are not modelled.
- `Rollups.Rollup`: a value is the text it renders to; the count is the one for state observations.
- Tally.CountsAreExact: the source counts in plain records, where a key such as "constructor" or "toString" reads an inherited member and is miscounted; the counts here are those of every other key.
- `scoreEvidence`, `gist` and `readableProperty`: an observation arrives scored and readable. The comment that recency never outranks what a record proves does not follow from the weights and is not claimed.
- `Evidence.CompressAccount`: the fields passed through unchanged (claims, facts, documents) are not modelled; the collation of `localeCompare` is any strict weak ordering.
- The other detectors of `counterEvidence.ts`, `assessSufficiency`, and the wording and weights of the two modelled here: one-branch tables.
- `meetingRefFrom`, `runFactsQuery`, `compressClaims`, encryption, HTTP, MCP and the user interface.
