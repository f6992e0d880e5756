# Restaurant reservation front end: time slots and search session

This project models two parts of a restaurant reservation web client in Dafny
and proves properties about them.

The first part is the **reservation time-slot engine** (`useTimeManagement`).
- It lists the half-hour booking slots from a start hour up to 23:30. Each slot has a `value` such as `0830` and a label such as `8:30`.
- It gives the full day from the opening hour, 8.
- It gives the slots still bookable for a selected date:
  - a date other than today gets the full day;
  - today gets nothing from 22:00 on;
  - otherwise today starts at the next whole hour.
- The default booking date is today, or the next calendar day from 22:00 on.
- Dates are rendered as the `YYYY-MM-DD` part of `Date.prototype.toISOString()`.

The second part is the **search session store** (the Pinia store `restaurant`). It holds:
- the restaurants found so far;
- the total the service reported;
- a loading flag;
- a page counter;
- the search id.

The store has two actions:
- `initializeSearch` clears the list, then runs login, search token and search request. It keeps what came back and swallows any failure.
- `loadMore` is guarded by "not loading and has more". It snapshots the list, logs in again and re-runs the same search. Then it appends the new posts, or restores the snapshot on failure.

Files:
- `decimal.dfy` (module `Decimal`): `Number.prototype.toString()` for whole numbers below 2^53 in magnitude, and `padStart(width, "0")`. A digit-string reader (`ParseDigits`) is the reference both are proved against.
- `calendar.dfy` (module `Calendar`): Gregorian dates, the `setDate(getDate() + 1)` step (`NextDay`), a day count (`DayNumber`) as an independent measure of "one day later", and the ISO date rendering.
- `time_management.dfy` (module `TimeManagement`): the slot engine and the date helpers. The Belgrade wall clock is an input, `BelgradeNow(hour, today)`.
- `restaurant_store.dfy` (module `RestaurantStore`): the store as a class `Store` with the five fields and the two actions as methods. Each method is proved equal to a pure step function on a `StoreState` value. The properties are proved about those step functions and about runs of calls.

Each awaited gateway call is replaced by an outcome value that says how far the calls got:
- `InitOutcome`: `LoginFailed`, `TokenFailed`, `SearchFailed(id)` or `Found(id, posts, total)`.
- `LoadOutcome`: `ReloginFailed`, `LoadFailed` or `Loaded(posts, total)`.

The restaurant record is a type parameter, because the store never looks inside it.

Behaviour of the code worth knowing:
- **The full day has 32 slots.** `generateTimeSlots(8)` gives two slots for each hour from 8 to 23, with unpadded labels such as `8:00`.
- **`loadMore` can leave more restaurants than `total`.** It appends whatever comes back and never looks at the returned total. `LoadMoreCanPassTotal` shows one such call.
- **Before 7:00, "today" offers more than a future date does.** The slots start at `hour + 1`, which is earlier than the opening hour (`TodayBeforeOpeningStartsEarly`).
- **`loadMore` never asks for a next page.** It re-sends the same search id, and the page counter is never sent. Only the counter changes.

## Model

| member | source | states |
|---|---|---|
| Decimal.NatToString | src/composables/useTimeManagement.ts:38-39 | `hour.toString()` for a whole number is never empty |
| Decimal.NatToStringDigits | src/composables/useTimeManagement.ts:38-39 | the rendering is all digits, and starts with '0' only for 0 itself |
| Decimal.IntToString | src/composables/useTimeManagement.ts:38-39 | `toString()` of a non-negative number is all digits and reads back as the number; of a negative one, a '-' followed by digits that read back as its magnitude |
| Decimal.SignShows | src/composables/useTimeManagement.ts:38-39 | the rendering starts with '-' exactly for negative numbers |
| Decimal.NatToStringInjective | src/composables/useTimeManagement.ts:38-39 | different non-negative numbers render differently |
| Decimal.IntToStringInjective | src/composables/useTimeManagement.ts:38-39 | different numbers render differently |
| Decimal.Zeros | src/composables/useTimeManagement.ts:38 | the padding is exactly `k` characters |
| Decimal.ZerosAreZeros | src/composables/useTimeManagement.ts:38 | every padding character is '0' |
| Decimal.PadStart | src/composables/useTimeManagement.ts:38 | `padStart(width, "0")` is `width` long when the string is shorter, and unchanged in length otherwise |
| Decimal.PadStartShape | src/composables/useTimeManagement.ts:38 | padding keeps the string as its tail and adds only '0's in front |
| Decimal.DigitChar | src/composables/useTimeManagement.ts:38-39 | the character of one digit is a digit character with that value |
| Decimal.ParseNatToString | src/composables/useTimeManagement.ts:38-39 | reading back the decimal rendering of `n` gives `n` |
| Decimal.ParseLeadingZeros | src/composables/useTimeManagement.ts:38 | leading zeros do not change the value of a digit string |
| Decimal.ParsePadded | src/composables/useTimeManagement.ts:38 | the zero-padded rendering of `n` is all digits and reads back as `n` |
| Decimal.NatToStringLength | src/composables/useTimeManagement.ts:38 | a number below 10^k renders in at most k digits |
| Decimal.ParseZeroIsZeros | src/composables/useTimeManagement.ts:30 | proof helper for `IsToday`: a digit string that reads as 0 is all zeros |
| Decimal.ParseCanonical | src/composables/useTimeManagement.ts:30 | proof helper for `IsToday`: a digit string that reads back as `n`, at least as long as the rendering of `n`, is that rendering zero-padded |
| Calendar.DaysInMonth | src/composables/useTimeManagement.ts:19 | every month has 28 to 31 days |
| Calendar.NextDay | src/composables/useTimeManagement.ts:18-19 | `setDate(getDate() + 1)` gives a valid date exactly one day later by the day count; it is the 1st exactly when `d` was the month's last day, and 1 January exactly when `d` was 31 December |
| Calendar.DaysBeforeDecember | src/composables/useTimeManagement.ts:19 | the months before December hold 334 days, 335 in a leap year |
| Calendar.YearLength | src/composables/useTimeManagement.ts:19 | a leap year counts 366 days and any other year 365, and the year count agrees with the month count |
| Calendar.Step4 | src/composables/useTimeManagement.ts:19 | proof helper for `YearLength`: the step from `y - 1` to `y` passes one multiple of 4 exactly when `y` is one |
| Calendar.Step100 | src/composables/useTimeManagement.ts:19 | proof helper for `YearLength`: the same for 100, and a multiple of 100 is a multiple of 4 |
| Calendar.Step400 | src/composables/useTimeManagement.ts:19 | proof helper for `YearLength`: the same for 400, and a multiple of 400 is a multiple of 100 |
| Calendar.DivMod4 | src/composables/useTimeManagement.ts:19 | proof helper for the `Step` lemmas: `n == 4 * q + r` with `0 <= r < 4` fixes the quotient and the remainder |
| Calendar.DivMod100 | src/composables/useTimeManagement.ts:19 | proof helper for the `Step` lemmas: the same for 100 |
| Calendar.DivMod400 | src/composables/useTimeManagement.ts:19 | proof helper for the `Step` lemmas: the same for 400 |
| Calendar.IsoYear | src/composables/useTimeManagement.ts:8 | the year part of `toISOString()` for years 0..9999 is four digits that read back as the year; otherwise it is '-' or '+' by the sign, then at least six digits that read back as the year's magnitude |
| Calendar.IsoDate | src/composables/useTimeManagement.ts:8 | the `YYYY-MM-DD` part of `toISOString()` is the year part, a dash, two digits that read back as the month, a dash, and two digits that read back as the day |
| Calendar.PaddedInjective | src/composables/useTimeManagement.ts:30 | equal zero-padded renderings of equal width come from equal numbers |
| Calendar.IsoYearInjective | src/composables/useTimeManagement.ts:30 | equal ISO year renderings come from equal years |
| Calendar.SplitIsoParts | src/composables/useTimeManagement.ts:30 | a `Y-MM-DD` string determines its year, month and day parts |
| Calendar.TwoDigitWidth | src/composables/useTimeManagement.ts:8 | a month or day number pads to exactly two characters |
| Calendar.IsoDateInjective | src/composables/useTimeManagement.ts:30 | two valid dates with the same ISO rendering are the same date |
| Calendar.DashedParts | src/composables/useTimeManagement.ts:8 | in a `YYYY-MM-DD` string the dashes sit at positions 4 and 7 and the three parts are where they were put |
| Calendar.IsoDateFormat | src/composables/useTimeManagement.ts:8 | for years 0..9999 the rendering is ten characters, `-` at positions 4 and 7, and the three digit groups read back as year, month and day |
| Calendar.ReadsAsDateIsIso | src/composables/useTimeManagement.ts:30 | for years 0..9999 the rendering is the only `YYYY-MM-DD` string whose digit groups read back as the date |
| TimeManagement.TimeSlot.Value | src/composables/useTimeManagement.ts:38-42 | for an hour in 0..99, `value` is four characters: two digits that read back as the hour, then the minutes |
| TimeManagement.TimeSlot.Label | src/composables/useTimeManagement.ts:39-43 | `label` ends with ':' and the minutes; what stands before the ':' reads back as the hour, behind a '-' for a negative hour |
| TimeManagement.Slots | src/composables/useTimeManagement.ts:36 | the run from `startHour` has `SlotCount(startHour)` slots |
| TimeManagement.SlotsAt | src/composables/useTimeManagement.ts:36-44 | slot `i` of the run from `h` is hour `h + i / 2`, ":00" for even `i` and ":30" for odd `i` |
| TimeManagement.SlotsConsecutive | src/composables/useTimeManagement.ts:36-44 | the run opens with the start hour on the hour, and each slot starts 30 minutes after the one before it: ":00" right before ":30", hours up by one |
| TimeManagement.SlotFormat | src/composables/useTimeManagement.ts:38-43 | for hours 0..23, `value` is the two hour digits then the minutes, four characters; `label` is the unpadded hour, ':' and the minutes |
| TimeManagement.LabelDeterminesSlot | src/composables/useTimeManagement.ts:39-43 | two slots with the same label are the same slot |
| TimeManagement.SlotsEnd | src/composables/useTimeManagement.ts:36-46 | a non-empty run ends with the slot 23:30, whose value is `2330` and label `23:30` |
| TimeManagement.OpeningSlotText | src/composables/useTimeManagement.ts:38-39 | the 8:00 slot has value `0800` and label `8:00` |
| TimeManagement.SlotsSuffix | src/composables/useTimeManagement.ts:36-46 | the run from a later start hour is the tail of the run from an earlier one |
| TimeManagement.DropPastPrefix | src/composables/useTimeManagement.ts:36 | proof helper for `SlotsSuffix`: dropping past a whole prefix drops the rest from what follows |
| TimeManagement.GenerateTimeSlots | src/composables/useTimeManagement.ts:34-47 | the loop returns exactly the run `Slots(startHour)`: `2 * (24 - startHour)` slots for a start hour up to 23, none after |
| TimeManagement.AllTimeSlots | src/composables/useTimeManagement.ts:50-52 | the full day is the run from 8: 32 slots, from 8:00 to 23:30 |
| TimeManagement.GetTodayDate | src/composables/useTimeManagement.ts:5-9 | for years 0..9999 the result is `YYYY-MM-DD` and its digit groups read back as today's year, month and day |
| TimeManagement.IsToday | src/composables/useTimeManagement.ts:27-31 | for years 0..9999, `isToday(date)` holds exactly for the `YYYY-MM-DD` strings whose digit groups read back as today's year, month and day |
| TimeManagement.IsTodayExactly | src/composables/useTimeManagement.ts:27-31 | the rendering of a valid date is "today" exactly when that date is today |
| TimeManagement.DefaultDate | src/composables/useTimeManagement.ts:15-23 | the default date is valid, and it is one day after today from 22:00 on and today before that |
| TimeManagement.GetTodayOrNextDay | src/composables/useTimeManagement.ts:12-24 | the result is the ISO rendering of the default date, and it is "today" exactly when the hour is below 22 |
| TimeManagement.AvailableTimeSlots | src/composables/useTimeManagement.ts:58-70 | a date that is not today gets the full day; today gets nothing from 22:00 on, and otherwise gets the run from `hour + 1`: `2 * (23 - hour)` slots, the first one's value the padded next hour then `00` |
| TimeManagement.TodayIsTailOfFullDay | src/composables/useTimeManagement.ts:58-70 | from 7:00 to 21:59, what today offers is the tail of the full day after its first `2 * (hour + 1 - 8)` slots |
| TimeManagement.TodayBeforeOpeningStartsEarly | src/composables/useTimeManagement.ts:67-69 | before 7:00, today offers more slots than the full day, and its first slot is before 8:00 with a value starting '0' |
| TimeManagement.DefaultDateHasSlots | src/composables/useTimeManagement.ts:12-70 | the default date always offers at least two slots |
| RestaurantStore.Initial | src/stores/restaurant.ts:7-11 | the store starts idle, with an empty list and nothing more to load |
| RestaurantStore.InitializeSearchStep | src/stores/restaurant.ts:13-37 | after `initializeSearch`, the store is not loading and is on page 1. The list is the found posts, or empty on any failure. The total is the reported one on success and unchanged otherwise. The search id is the new one once the token arrived, even if the search then failed |
| RestaurantStore.LoadMoreStep | src/stores/restaurant.ts:39-63 | `loadMore` while loading or without more changes nothing. After a successful search, the list is the old list plus the new posts and the page is one higher. After a failure, nothing changes. The total and the search id never change |
| RestaurantStore.Apply | src/stores/restaurant.ts:13-63 | every call leaves an idle store idle; a search ends not loading on page 1; a `loadMore` keeps the old list as a prefix and keeps the total and the search id |
| RestaurantStore.Run | src/stores/restaurant.ts:13-37 | after calls ending with a search, the store is not loading, on page 1, holds that search's first posts (none if it failed), and holds its search id once the token arrived, whatever came before |
| RestaurantStore.RunKeepsIdle | src/stores/restaurant.ts:13-63 | any sequence of calls from an idle store leaves it not loading, with a page number of at least 1 |
| RestaurantStore.LoadMoresOnlyAppend | src/stores/restaurant.ts:39-63 | between searches, the old list stays a prefix, the page never goes back, and the total and the search id stay put |
| RestaurantStore.LoadMores | src/stores/restaurant.ts:39 | proof helper for `LoadMoresOnlyAppend`: a run of `loadMore` calls has one call per outcome |
| RestaurantStore.FoundHasMore | src/stores/restaurant.ts:30-67 | right after a successful search, `hasMore` holds exactly when the posts fall short of the reported total |
| RestaurantStore.FailedSearchKeepsStaleTotal | src/stores/restaurant.ts:14-40 | a failed search keeps a positive old total, so `hasMore` stays true and the next `loadMore` fills the empty list |
| RestaurantStore.LoadMoreChangesExactly | src/stores/restaurant.ts:40-59 | `loadMore` changes the store exactly when it is idle, has more, and the search succeeds |
| RestaurantStore.LoadMoreCanPassTotal | src/stores/restaurant.ts:55 | one `loadMore` can leave more restaurants than the reported total |
| RestaurantStore.Store.constructor | src/stores/restaurant.ts:7-11 | the store starts empty, with total 0, not loading, on page 1, with an empty search id |
| RestaurantStore.Store.HasMoreNow | src/stores/restaurant.ts:65-67 | `hasMore` is exactly "fewer restaurants held than the total" |
| RestaurantStore.Store.InitializeSearch | src/stores/restaurant.ts:13-37 | the field assignments, made in the source's order, leave exactly `InitializeSearchStep` of the old state |
| RestaurantStore.Store.LoadMore | src/stores/restaurant.ts:39-63 | the guard, the snapshot, the append or restore, and the page increment leave exactly `LoadMoreStep` of the old state; total and search id are unchanged |

## Left out

- The gateway calls in `src/services/api.ts` (anonymous login, search token, search request over HTTP) are not modelled. Their results enter only as the `InitOutcome` and `LoadOutcome` values.
- The interfaces in `src/types/api.ts` carry no behaviour. `Restaurant` is a type parameter, and `SearchCriteria` is a record of three strings.
- The Belgrade clock is not modelled. Reading it via `new Date()` and `toLocaleString(..., { timeZone: 'Europe/Belgrade' })` depends on the host. The hour and the date are inputs instead.
  - The model takes one clock reading per call. `getAvailableTimeSlots` reads the clock twice, once inside `isToday` and once for the hour. Just after midnight the source can check the date against the old day and then take hour 0 from the new one.
  - The model assumes that `toISOString()` of the re-parsed time gives the Belgrade calendar date.
  - In the source, the re-parsed value is read as host-local time and rendered in UTC. On a host east of UTC, this can give the previous day shortly after midnight.
  - On a host west of UTC it shifts the other way. On UTC-5, for example, the rendering is already the next day from 19:00 Belgrade time. `isToday` and `getTodayOrNextDay` then compare against, and return, that next day.
- `toISOString()` throws outside JavaScript's date range (about ±275 760 years). The model renders every year.
- JavaScript numbers are doubles, and the model uses unbounded integers. From 2^53 in magnitude a double no longer holds every whole number, and `toString()` prints the shortest digits that round back to it: `(2**64).toString()` is `18446744073709552000`, while `NatToString` writes every digit. From 10^21 `toString()` switches to exponent form (`1e+21`). `NatToString` and `IntToString` model neither. Below -2^53, `hour++` no longer changes the value, so the source loop would never end, while `GenerateTimeSlots` returns `2 * (24 - startHour)` slots. Every caller passes 8 or an hour from 1 to 22.
- `Date.setDate` arithmetic on non-integer or out-of-range clock readings is not modelled. `ValidNow` requires an hour in 0..23 and a valid date, which is what a clock gives.
- `GenerateTimeSlots`: a pushed slot holds its hour and its half-hour, and `TimeSlot.Value()` and `TimeSlot.Label()` compute `value` and `label` from them. It does not hold the two strings as stored fields. The content is the same, and `LabelDeterminesSlot` shows that no two slots share a label.
- `GenerateTimeSlots`: start hours that are not whole numbers are not modelled. The parameter is an integer, and every caller passes one.
- The Vue `computed` value `timeOptions` and the composable's `selectedDate` ref are left out. `AvailableTimeSlots` takes the selected date as a parameter and is recomputed on each call.
- Pinia's `defineStore`, `ref` and `toRaw` wrappers are not modelled. `toRaw` returns the same list, so the snapshot is the list itself.
- `initializeSearch` and `loadMore` interleaving across their `await` points is not modelled. That is concurrency: each action is one atomic step, so `isLoading` is never seen true between calls.
- `console.log` and `console.error` logging is not modelled; it has no effect on the state.
