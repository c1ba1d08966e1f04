# Cost counter: formatting, digit-change flags, display state and calendar counts

This project models the logic inside the cost counter widget, `src/components/CostCounter.jsx`. The widget shows a running total of money spent since August 2017, one digit tile per digit. A tile flashes when its digit differs from the digit shown before. Beside the total, the widget shows the months and days elapsed since the start date.

The model has four modules, one per part of the component:

- `NumberFormat` (`number_format.dfy`) models `formatNumber`.
  - The amount is a non-negative whole number of cents.
  - Its fixed-point text is the decimal text of `cents / 100`, followed by `cents % 100` padded to two digits.
  - The whole part is cut into groups of three from the right. The method `FormatNumber` does this with the source's loop: it walks an index down by three and puts each slice in front of the groups found so far. It is proved equal to the specification function `Format`.
  - The lemmas prove that the groups rebuild the whole part, bound the group lengths and count, and read back as the original cents.
- `DigitChange` (`digit_change.dfy`) models the tile test.
  - `NumberCard` compares each digit with the previous value's character at the same group index and digit index. For the decimal part it compares at the same index.
  - A position the previous value does not have reads as `'0'`.
- `Counter` (`cost_counter.dfy`) models the display state as the class `CostCounter`. Its fields are the total in cents and the previously displayed formatted value.
  - `Tick` is one run of `updateCost`: the formatting of the total being replaced becomes the previous value, then the new total is stored.
  - `Render` formats the total and computes the change flags.
- `Calendar` (`calendar.dfy`) models the two whole-number statistics.
  - Months elapsed is the year difference times 12 plus the month difference. Months are counted from 0, as `Date.getMonth` counts them.
  - Days elapsed is the floor of the millisecond difference divided by 86 400 000.

Three facts about the code shape what the model proves:

- The cost formula (lines 59-65) is left out; see below.
- `previousNumber` starts as `formatNumber(0)` (line 52). So the first change flags exactly the tiles whose digit is not `'0'` (`DiffFromZero`).
- Previous groups are looked up by group index, most significant group first (line 111). So a carry that opens a new group compares digits one group off (`DiffAcrossNewGroup`).

## Model

| member | source | states |
|---|---|---|
| `NumberFormat.DecimalText` | src/components/CostCounter.jsx:42 | the integer part of the fixed-point text has at least one digit, only digits, and no leading zero unless the amount is below one unit |
| `NumberFormat.DecimalTextRoundTrip` | src/components/CostCounter.jsx:42 | reading the integer text back as a number gives the number it was written from |
| `NumberFormat.DecimalTextCanonical` | src/components/CostCounter.jsx:42 | every digit string without a leading zero is the integer text of its own value, so the text is the one canonical decimal form |
| `NumberFormat.TwoDigits` | src/components/CostCounter.jsx:42 | the decimal part has exactly two digit characters, zero-padded, and reads back as the cents |
| `NumberFormat.Grouped` | src/components/CostCounter.jsx:43-46 | the groups the slicing loop produces; no contract of its own; `ConcatGrouped`, `GroupedShape` and `GroupedDigits` carry its properties, and `FormatNumber` proves the loop equal to it |
| `NumberFormat.ConcatGrouped` | src/components/CostCounter.jsx:43-46 | concatenating the groups in order gives back exactly the whole-part string |
| `NumberFormat.GroupedShape` | src/components/CostCounter.jsx:44-45 | there are ceil(length of whole / 3) groups; each has 1 to 3 characters, and every group but the first has exactly 3 |
| `NumberFormat.GroupedDigits` | src/components/CostCounter.jsx:44-45 | slicing a digit string yields groups made only of digits |
| `NumberFormat.Format` | src/components/CostCounter.jsx:41-48 | what `formatNumber` returns for an amount; no contract of its own; `FormatShape`, `FormatRoundTrip` and `FormatInjective` carry its properties |
| `NumberFormat.FormatShape` | src/components/CostCounter.jsx:41-48 | a formatted amount has at least one group, well-sized digit groups that rebuild the whole part, and a two-digit decimal part |
| `NumberFormat.FormatRoundTrip` | src/components/CostCounter.jsx:42-47 | the concatenated groups read as a number, times 100, plus the decimal part read as a number, equal the original cents |
| `NumberFormat.FormatInjective` | src/components/CostCounter.jsx:41-48 | two amounts with the same formatting are the same amount |
| `NumberFormat.FormatZero` | src/components/CostCounter.jsx:52 | zero formats as the single group "0" with decimal part "00" |
| `NumberFormat.FormatThousands` | src/components/CostCounter.jsx:41-48 | 12345.67 formats as groups "12", "345" with decimal part "67" |
| `NumberFormat.FormatMillions` | src/components/CostCounter.jsx:41-48 | 1234567.89 formats as groups "1", "234", "567" with decimal part "89", a case with a full middle group |
| `NumberFormat.FormatNumber` | src/components/CostCounter.jsx:41-48 | the index-stepping loop builds exactly the specified grouping; its groups rebuild the whole part, are well sized, and together with the two-digit decimal part read back as the cents |
| `DigitChange.HasChanged` | src/components/CostCounter.jsx:5-6 | the tile test `previousValue !== children`; no contract of its own; `Diff`, `DiffSelf` and `DiffSameShape` carry its properties |
| `DigitChange.PreviousGroupDigit` | src/components/CostCounter.jsx:111 | the previous character at the same group and digit index, or '0' when there is none; no contract of its own; `DiffMissingPosition` states the fallback |
| `DigitChange.PreviousDecimalDigit` | src/components/CostCounter.jsx:124 | the previous decimal character at the same index, or '0' when there is none; no contract of its own; `DiffMissingDecimal` states the fallback |
| `DigitChange.Diff` | src/components/CostCounter.jsx:102-128 | one flag per displayed digit; a flag is set iff the digit differs from the previous value's character at the same group and digit index (for decimals, the same index), where a missing position counts as '0' |
| `DigitChange.DiffSelf` | src/components/CostCounter.jsx:5-6 | rendering a value after itself flags no tile |
| `DigitChange.DiffSameShape` | src/components/CostCounter.jsx:102-128 | between values of the same shape, no tile is flagged iff the two values are equal |
| `DigitChange.DiffMissingPosition` | src/components/CostCounter.jsx:111 | an integer digit at a position the previous value lacks is flagged iff it is not '0' |
| `DigitChange.DiffMissingDecimal` | src/components/CostCounter.jsx:124 | a decimal digit at an index the previous value lacks is flagged iff it is not '0' |
| `DigitChange.DiffFromZero` | src/components/CostCounter.jsx:52 | against the start-up previous value (zero), every tile is flagged iff its digit is not '0' |
| `DigitChange.DiffNextCent` | src/components/CostCounter.jsx:102-128 | going from 100.00 to 100.01 flags only the last decimal tile |
| `DigitChange.DiffAcrossNewGroup` | src/components/CostCounter.jsx:102-128 | going from 999.99 to 1000.00 flags the new leading '1' and both decimals but not the second group's zeros, because groups are matched from the most significant end |
| `Counter.CostCounter.constructor` | src/components/CostCounter.jsx:51-52 | the total starts at 0 and the previous value at the formatting of 0, i.e. ["0"] and "00" |
| `Counter.CostCounter.Tick` | src/components/CostCounter.jsx:67-68 | after a tick, the previous value is the formatting of the total held before it, and the total is the new value; no other state exists to change |
| `Counter.CostCounter.Render` | src/components/CostCounter.jsx:84-86 | the displayed value is the formatting of the current total; it reads back as that total, and the flags compare it with the previous value |
| `Calendar.MonthsPassed` | src/components/CostCounter.jsx:60-61 | the month count (also computed at lines 78-79) is the distance between the two months on one running count of months; `MonthsPassedSign`, `MonthsPassedNextMonth`, `MonthsPassedNextYear` and `MonthsPassedAdditive` state its properties |
| `Calendar.MonthsPassedSign` | src/components/CostCounter.jsx:78-79 | for valid months, the count is non-negative iff `now` is not before the start, and it is zero iff `now` is the start month |
| `Calendar.MonthsPassedNextMonth` | src/components/CostCounter.jsx:78-79 | moving `now` on by one calendar month, across a year end too, adds exactly 1 |
| `Calendar.MonthsPassedNextYear` | src/components/CostCounter.jsx:78-79 | moving `now` on by one calendar year adds exactly 12 |
| `Calendar.MonthsPassedAdditive` | src/components/CostCounter.jsx:78-79 | counts over consecutive spans add up |
| `Calendar.MonthsPassedThreeYears` | src/components/CostCounter.jsx:53 | from the start date, August 2017, to August 2020 is 36 months |
| `Calendar.DaysPassed` | src/components/CostCounter.jsx:80 | the result is the floor of the difference over a day: result × 86 400 000 ≤ difference < (result + 1) × 86 400 000; it is ≥ 0 iff `now` is not before the start |
| `Calendar.DaysPassedUnique` | src/components/CostCounter.jsx:80 | the floor is the only whole number that brackets the difference that way |
| `Calendar.DaysPassedMonotone` | src/components/CostCounter.jsx:80 | a later instant never shows fewer days |
| `Calendar.DaysPassedNextDay` | src/components/CostCounter.jsx:80 | an instant exactly one day later shows exactly one more day |

## Left out

- Conversion of the floating-point total to text (`toFixed(2)`, line 42). Amounts are whole cents, so float rounding is not modelled. Negative totals (a clock before the start date) and totals of 10^21 or more, which `toFixed` writes in exponential form, are not modelled either.
- The cost formula (lines 59, 62-65), which uses floating-point rates: 270 per month and 270/30 per day. `Tick` takes the new total as a parameter.
- `semestersPassed` (line 82), its `toFixed(1)` displays (lines 144, 149), and the per-second display (line 183). These are floating-point division and rounding.
- The spending equivalences (lines 36, 157-176). These are floating-point divisions followed by `Math.floor`.
- Reading the wall clock (`new Date()`, lines 58, 77) and converting an instant to a local year and month. Months are given as (year, month) pairs and instants as whole milliseconds.
- `Calendar.DaysPassed`: models exact integer floor division. The source divides in double precision first; this gives the same floor for millisecond differences of realistic size.
- The timer: `useEffect`, `setInterval` every 50 ms, and `clearInterval` on teardown (lines 56, 71-74). `Tick` models one call of `updateCost` made against the state of the latest render. Which renders and intervals interleave is host scheduling and is not modelled.
- JSX markup and styling: `NumberCard` markup, `StatCard`, `AlternativeSpending`, cards and icons (lines 8-39, 88-189). Only the `hasChanged` test and the previous-digit lookup are modelled.
- `src/App.jsx`, which only mounts the component.
