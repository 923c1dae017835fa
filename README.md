# CPOT vesting dashboard — a Dafny model of its display and release logic

The dashboard is a web front end for a token-vesting contract. The contract
holds vesting schedules: token amounts that unlock over time for a
beneficiary, grouped into four allocation categories. The dashboard reads
those schedules and their progress from the chain. It shows:

- each schedule as a card, with a status badge, a release-progress bar,
  an elapsed-time bar and a countdown;
- release controls on each card, so the beneficiary can withdraw what has
  unlocked;
- a panel of contract-wide totals;
- a tabbed view of the wallet's schedules, one tab per allocation category.

This project models the logic behind those views:

- **Types** (`types.dfy`): the allocation-category and vesting-type enums
  with their numeric codes and display names, and the schedule and progress
  records.
- **Utils** (`utils.dfy`): `formatTokenAmount`, which renders an 18-decimal
  amount of base units as a truncated fixed-point numeral, and
  `formatDuration`, which renders a countdown as at most two units.
  A model of `parseEther` on plain numerals lets the rendering be read back.
- **ScheduleCard** (`schedule_card.dfy`): the card's derived values
  (status, release progress, time progress, remaining seconds, whether the
  controls are enabled) and the validation in `handleRelease`. A
  `CardState` class holds what the card keeps between renders: the amount
  input, the clock, the latest progress read, and the "awaiting wallet" and
  "awaiting receipt" flags.
- **GlobalStats** (`global_stats.dfy`): total, released and locked amounts,
  and overall release progress.
- **VestingPlans** (`vesting_plans.dfy`): the per-category filter, the
  empty state and the tab layout.
- **Helper modules:**
  - `Progress` works in basis points (hundredths of a percent), the integer
    that both progress computations produce before converting to a
    floating-point percentage.
  - `Decimal` handles digit strings and powers of ten.
  - `JsString` models the JavaScript string operations the code relies on:
    `trim`, `split`, `padEnd` and `join`.
  - `Arithmetic` holds facts about multiplication and division.
  - `Options` is an option type.

All amounts and timestamps are unbounded integers, restricted to the ABI
`uint256` range where the contract supplies them. The current time is an
argument, or a field that the once-a-second clock updates.

## Model

| member | source | states |
|---|---|---|
| Types.CategoryCode | src/lib/types.ts:1-6 | each allocation category has the enum value 0..3 |
| Types.CategoryOfCode | src/lib/types.ts:1-6 | a `uint8` code names a category exactly when it is below 4, and that category's code is the code |
| Types.CategoryCodeRoundTrip | src/lib/types.ts:1-6 | decoding a category's code gives back the category |
| Types.VestingTypeCode | src/lib/types.ts:15-19 | each vesting type has the enum value 0..2 |
| Types.VestingTypeOfCode | src/lib/types.ts:15-19 | a code names a vesting type exactly when it is below 3, and that type's code is the code |
| Types.VestingTypeCodeRoundTrip | src/lib/types.ts:15-19 | decoding a vesting type's code gives back the type |
| Types.AllocationCategoryMappingTotalAndInjective | src/lib/types.ts:8-13 | every category has a display name and no two categories share one |
| Types.VestingTypeMappingTotalAndInjective | src/lib/types.ts:21-25 | every vesting type has a display name and no two types share one |
| Utils.FormatTokenAmount | src/lib/utils.ts:10-23 | for a defined amount, or at least one decimal, the point sits exactly `decimals` characters from the end |
| Utils.FormatTokenAmountShape | src/lib/utils.ts:14-22 | a defined amount renders as its whole part, '.', the first `decimals` digits of its 18-digit fraction, and '0' padding beyond 18 |
| Utils.UndefinedAmountIsZero | src/lib/utils.ts:11-13 | an undefined amount renders as "0." and `decimals` zeros, which reads back as 0 for any number of decimals, since `parseEther` drops trailing zeros of the fraction |
| Utils.FormatTokenAmountTruncates | src/lib/utils.ts:14-22 | with at most 18 decimals the rendering rounds down: read back, it is a multiple of 10^(18-decimals), never above the amount, and less than one such step below it |
| Utils.MaxRenderingRoundTrip | src/lib/utils.ts:14-22 | an amount rendered with 18 decimals reads back unchanged |
| Utils.ParseWholeTokens | src/components/dashboard/schedule-card.tsx:90 | a numeral of digits only, without a point, reads as that many whole tokens of 10^18 base units |
| Utils.ParseNumeral | src/components/dashboard/schedule-card.tsx:90 | `integer.fraction`, with at most 18 fraction digits, reads as its fixed-point value in base units |
| Utils.FormatDuration | src/lib/utils.ts:25-42 | the countdown text is never empty and always ends in a unit letter: 'd', 'h' or 'm' |
| Utils.FormatDurationUnits | src/lib/utils.ts:25-42 | a negative interval renders like 0; at most the two largest non-zero units show, in the order days, hours, minutes; with none to show, a positive interval is "< 1m" and an empty one "0m" |
| Utils.ShortIntervalUnderAMinute | src/lib/utils.ts:26-39 | with the clock-free decomposition, 0 or fewer seconds render as "0m" and 1 to 59 seconds as "< 1m" |
| Utils.ShortIntervalUnderAnHour | src/lib/utils.ts:25-42 | from one minute to under an hour, only the whole minutes show |
| Utils.ShortIntervalUnderADay | src/lib/utils.ts:25-42 | from one hour to under a day, with leftover minutes, it renders as "Xh Ym" |
| ScheduleCard.StatusOf | src/components/dashboard/schedule-card.tsx:110-114 | the badge says revoked exactly when the schedule is revoked, and completed exactly when the schedule is not revoked and progress shows a positive total fully released |
| ScheduleCard.ReleaseBasisPoints | src/components/dashboard/schedule-card.tsx:116-119 | 0 without progress data or with a zero total; otherwise the rounded-down share of released over total, in basis points |
| ScheduleCard.ReleaseProgressAtMostFull | src/components/dashboard/schedule-card.tsx:116-119 | release progress is at most 100% while released does not exceed total |
| ScheduleCard.CompletedIffFullyReleased | src/components/dashboard/schedule-card.tsx:110-119 | a non-revoked card shows "completed" exactly when its release progress is 100% |
| ScheduleCard.TimeProgressBasisPoints | src/components/dashboard/schedule-card.tsx:121-127 | 100% for a zero duration; 0 up to the start; 100% from the end on; in between, the rounded-down share of elapsed time, below 100% |
| ScheduleCard.TimeProgressMonotonic | src/components/dashboard/schedule-card.tsx:121-127 | time progress never decreases as the clock advances |
| ScheduleCard.RemainingSeconds | src/components/dashboard/schedule-card.tsx:129-133 | the countdown is 0 exactly when the end has been reached; otherwise now plus the countdown is the end |
| ScheduleCard.CountdownFollowsClock | src/components/dashboard/schedule-card.tsx:129-133 | the countdown never rises, and until the end it falls by exactly the time that passes |
| ScheduleCard.CountdownEndsWithTimeProgress | src/components/dashboard/schedule-card.tsx:121-133 | for a positive duration, the countdown reaches 0 exactly when time progress reaches 100% |
| ScheduleCard.ReleasableOrZero | src/components/dashboard/schedule-card.tsx:59-60 | the releasable amount when progress has been read; 0 exactly when there is no progress data or nothing is releasable |
| ScheduleCard.CanRelease | src/components/dashboard/schedule-card.tsx:135 | the controls are enabled exactly when progress has been read with a positive releasable amount and no write is pending or confirming |
| ScheduleCard.AmountToRelease | src/components/dashboard/schedule-card.tsx:90 | a blank or whitespace-only input asks for the whole releasable amount; any other input asks for what `parseEther` makes of it |
| ScheduleCard.HandleRelease | src/components/dashboard/schedule-card.tsx:88-108 | nothing happens exactly when there is no progress data; a non-positive amount is invalid; an amount above the releasable amount is refused; anything else is submitted, so a submission is always positive and within the releasable amount |
| ScheduleCard.BlankInputReleasesAll | src/components/dashboard/schedule-card.tsx:90-95 | a blank or whitespace-only input asks for exactly the releasable amount, which is invalid when it is 0 |
| ScheduleCard.MaxButtonReleasesAll | src/components/dashboard/schedule-card.tsx:61 | the Max text is not blank and parses back to exactly the releasable amount, so releasing it submits everything releasable |
| ScheduleCard.EnabledReleaseOfBlankSubmits | src/components/dashboard/schedule-card.tsx:88-107 | with the controls enabled, releasing with an empty input submits the whole releasable amount |
| ScheduleCard.CardState.constructor | src/components/dashboard/schedule-card.tsx:31-32 | a new card has an empty input, no progress read, no pending or confirming write, and the current time |
| ScheduleCard.CardState.Tick | src/components/dashboard/schedule-card.tsx:34-37 | the clock update sets the card's time and nothing else; when time moves forward, the card's elapsed-time bar never falls and its countdown never rises |
| ScheduleCard.CardState.ProgressRead | src/components/dashboard/schedule-card.tsx:39-47 | a progress poll replaces the card's progress data and nothing else |
| ScheduleCard.CardState.EditAmount | src/components/dashboard/schedule-card.tsx:207-209 | while the controls are enabled, editing the input sets its text; while they are disabled, the input keeps its text; nothing else changes |
| ScheduleCard.CardState.PressMax | src/components/dashboard/schedule-card.tsx:214-217 | when enabled, Max fills the input with the releasable amount at 18 decimals; when disabled, the input is unchanged |
| ScheduleCard.CardState.PressRelease | src/components/dashboard/schedule-card.tsx:226-229 | when enabled, the release button gives `handleRelease`'s outcome on the current input, and only a submission starts a pending write; when disabled, nothing happens |
| ScheduleCard.CardState.WalletResponded | src/components/dashboard/schedule-card.tsx:63-77 | the wallet's answer ends the pending state, and a sent transaction starts confirming; never pending and confirming at once |
| ScheduleCard.CardState.ReceiptConfirmed | src/components/dashboard/schedule-card.tsx:77-86 | with the success callback run, a confirmed receipt ends confirming and clears the amount input |
| ScheduleCard.CardState.ReceiptArrivedAsWritten | src/components/dashboard/schedule-card.tsx:77-86 | with no callback run, the receipt ends confirming and the amount input keeps its text |
| ScheduleCard.MaxThenRelease | src/components/dashboard/schedule-card.tsx:214-229 | pressing Max and then release on an enabled card submits exactly the releasable amount; the card is left pending, not confirming, with the Max text in the input |
| ScheduleCard.MaxReleaseConfirmed | src/components/dashboard/schedule-card.tsx:63-86 | Max, release, a sent transaction and a receipt whose success callback runs: exactly the releasable amount is submitted and the card ends idle with an empty input |
| ScheduleCard.MaxReleaseConfirmedAsWritten | src/components/dashboard/schedule-card.tsx:63-86 | the same cycle with no callback run: the card ends idle but the input still holds the Max text, which is never empty |
| GlobalStats.ResultOrZero | src/components/dashboard/global-stats.tsx:42-45 | a read result counts as its value; a missing batch or missing result counts as 0, and only those, or a zero result, give 0 |
| GlobalStats.ComputeStats | src/components/dashboard/global-stats.tsx:42-48 | a missing batch or missing result counts as 0; locked is total minus released, negative exactly when released exceeds total; progress is 0 for a zero total, otherwise the rounded-down share in basis points |
| GlobalStats.ConsistentTotalsStayInRange | src/components/dashboard/global-stats.tsx:46-48 | while released does not exceed total, locked is not negative and progress is at most 100% |
| VestingPlans.CategoriesListEachOnce | src/components/dashboard/vesting-plans.tsx:9-14 | every category has a tab, and no category has two |
| VestingPlans.FilteredSchedules | src/components/dashboard/vesting-plans.tsx:18-20 | a schedule is in a category's tab exactly when it is in the list and belongs to that category |
| VestingPlans.FilteredIsSubsequence | src/components/dashboard/vesting-plans.tsx:18-20 | a category tab keeps the list's order |
| VestingPlans.CategoryTabsPartition | src/components/dashboard/vesting-plans.tsx:44-65 | the four category tabs together hold the "all" tab's schedules, counted with multiplicity |
| VestingPlans.ScheduleInItsOwnTab | src/components/dashboard/vesting-plans.tsx:49-53 | a listed schedule appears in its own category's tab and in no other |
| VestingPlans.PanelFor | src/components/dashboard/vesting-plans.tsx:49-63 | a category's tab shows the filtered schedules, never an empty list of them; it shows the "no schedules" notice exactly when no schedule has that category |
| VestingPlans.RenderPlans | src/components/dashboard/vesting-plans.tsx:22-65 | the empty state shows exactly when there are no schedules; otherwise the "all" tab shows every schedule, each category tab shows cards exactly when some schedule has that category, and those cards are that category's filtered schedules |

## Left out

- The vesting contract itself is not modelled: the vesting maths and the actual release. Progress reads and batch reads are inputs.
- wagmi and react-query I/O is not modelled: polling, cache invalidation after a confirmed release, loading flags and skeletons. A read enters the model as an `Option` value, via `CardState.ProgressRead` and the argument of `ComputeStats`.
- The `setInterval` clock is `CardState.Tick` with the time as its argument; `Date` and the seconds rounding of `getTime()` are not modelled.
- The final floating-point steps are not modelled: `Number(...) / 100` and `toFixed(2)` on progress. Progress is kept as integer basis points, which carry the same information.
- ScheduleCard.RemainingSeconds: computed exactly. The source converts `start + duration` with `Number(...)`, which loses precision above 2^53 seconds.
- ScheduleCard.HandleRelease: what `parseEther` gives the input is passed in as `parsed`, so the card's logic holds for any parse result, including the exception `parseEther` throws on malformed text, which is not modelled.
- Utils.ParseEther: models viem's `parseEther` on unsigned numerals: digits, an optional '.', digits, either side possibly empty, with the fraction's trailing zeros dropped. A leading '-' and a fraction with more than 18 significant digits, which viem rounds, are not modelled. The result is None for those and for text viem rejects.
- Utils.FormatTokenAmount: viem's `formatEther` is modelled for non-negative amounts only. It is the whole part, then '.' and the 18-digit fraction without trailing zeros when that fraction is not zero. The dashboard formats only contract amounts, which are never negative.
- Utils.FormatTokenAmount: `Number(0).toFixed(decimals)` throws for more than 100 decimals; this becomes a precondition on the undefined case.
- Utils.FormatDuration: date-fns `intervalToDuration` is the `decompose` argument. `Utils.ShortIntervalDuration` is its arithmetic decomposition into days, hours and minutes. It is stated only for intervals under a day, where calendar months and daylight-saving shifts do not arise.
- `cn`, toasts, translations, icons, tooltips and the "User rejected" message are presentation only and are not modelled.
- Beneficiary addresses and schedule ids are numbers in the model rather than hex strings.
- ScheduleCard.CardState.ReceiptConfirmed: models the receipt's success callback as the card means it to run: clear the input, refresh the caches. wagmi 2's `useWaitForTransactionReceipt` takes query options only under `query`, and TanStack Query 5 has no per-query `onSuccess`. So the callback as written is most likely never run; see "## Findings". `CardState.ReceiptArrivedAsWritten` models that case.
- Utils.FormatTokenAmount: the default `decimals = 4` is not modelled; every call in the dashboard passes `decimals` explicitly.
- ScheduleCard.CardState.EditAmount: the input also has `type="number"`, which makes the browser filter what can be typed. That filtering is not modelled; the text is taken as given.
- ScheduleCard.CardState.ProgressRead: the card reads `getVestingProgress` (schedule-card.tsx:39-47), a function that the contract ABI in src/lib/contracts.ts does not declare. viem cannot encode that call, so as written the read most likely never returns data: `progress` stays undefined and the release controls stay disabled. The model does not check the ABI and lets a read return any progress value; `ProgressRead(None)` is that case.
- Types.VestingSchedule: `category` and `vestingType` are the decoded enums, so a schedule whose `uint8` codes are 4..255 or 3..255 cannot be represented. In the dashboard such a schedule shows only in the "all" tab.
- `user-dashboard.tsx`, `personal-overview.tsx`, the wallet, header and language components, the providers and the contract configuration are not part of this model.

## Findings

| source | as written | input that shows it | evidently intended | confidence | as-written member | corrected member |
|---|---|---|---|---|---|---|
| src/components/dashboard/schedule-card.tsx:77-86 | `onSuccess` is passed to `useWaitForTransactionReceipt` as a top-level option. wagmi 2 does not call it, so a confirmed receipt leaves the input and the caches as they were; `isConfirmed` (line 77) is read but unused | a card with a positive releasable amount: Max, release, the wallet sends the transaction, the receipt confirms; the input still shows the amount | on confirmation, clear the amount input and refresh the progress, summary and schedule reads | not executed | ScheduleCard.MaxReleaseConfirmedAsWritten | ScheduleCard.MaxReleaseConfirmed |
