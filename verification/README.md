# Simulated-time formatting of the celestial simulator

The simulator shows the simulated time that has elapsed as text. Two functions
produce that text from a whole number of seconds:

- `format_time` gives plural-aware text such as "2 days and 1 hour". It names
  the largest non-zero unit among years, days, hours, minutes and seconds. It
  adds the next smaller unit only when that unit's count is non-zero. When
  every count is zero it shows seconds, so 0 becomes "0 seconds".
- `format_time_ord` gives ordinal text. Once a year has passed it shows the
  year and the day of the year ("1st year and 3rd day"). Before that it shows
  the day and the hour of the day ("12th day and 2nd hour").
- `ord_indicator` picks the English ordinal ending. Numbers ending in 11, 12
  or 13 take "th". Every other number takes "st", "nd" or "rd" for a last
  digit of 1, 2 or 3, and "th" otherwise.

A minute is 60 seconds, an hour 60 minutes, a day 24 hours and a year 365 days.

The model has three modules:

- `Arith` (arith.dfy) holds facts about division and remainder by a positive constant.
- `Decimal` (decimal.dfy) renders a natural number in decimal, as Rust's `{}`
  formatting of a `usize` does. It also has the parser that reads the
  rendering back.
- `Time` (time.dfy) models `src/utils/time.rs`: the unit constants, the unit
  split, both formatters and the ordinal ending.

Rust's `usize` is modelled as `nat`. The code only divides its input by
positive constants and takes remainders, so no value can wrap around.

Both formatters compute their units with the same expressions: lines 7-9 are
the same as lines 27-29. The model therefore computes the units once, in
`Time.Decompose`, and both `Time.FormatTime` and `Time.FormatTimeOrd` use it.
`Time.FormatTime` is split into the unit split and `Time.FormatUnits`, which
holds the if-chain of lines 39-57, with the plural endings of lines 33-37
computed by `Time.Quantity`.

Each formatter is proved equal to a separate statement of its rule, or to
its inverse:

- `Time.Decompose` is inverted by `Time.Compose`, in both directions.
- The if-chain of `format_time` matches `Time.FormatSpec` for every input.
  `Time.FormatSpec` is a separate statement of the rule: the first non-zero
  unit, then the next unit if it is non-zero.
- `ord_indicator`'s test on the remainder by 100 matches the grammar-book
  rule on the tens digit (`Time.EnglishOrdinalSuffix`).
- The decimal rendering and every ordinal read back to the number they came from.

## Model

| member | source | states |
|---|---|---|
| `Time.Decompose` | src/utils/time.rs:26-31 | The split gives whole years, the day of the year (whole days mod 365), the hour of the day (whole hours mod 24), the minute of the hour and the second of the minute. Every unit below the year is below its bound, and `years*YEAR + days*DAY + hours*HOUR + minutes*MINUTE + seconds` equals the input. |
| `Time.DecomposeCompose` | src/utils/time.rs:27-31 | Splitting the seconds that a bounded split stands for gives back that split. The split is therefore the only bounded one that adds up to the input. |
| `Time.PluralSuffix` | src/utils/time.rs:33-37 | A unit's plural ending is empty exactly when the count is 1. It is "s" for every other count, 0 included. |
| `Time.OrdIndicator` | src/utils/time.rs:60-71 | The ending is always one of "st", "nd", "rd", "th". It is "th" whenever `n % 100` is 11, 12 or 13. Otherwise it is "st", "nd" or "rd" exactly when `n % 10` is 1, 2 or 3, and "th" for any other last digit. |
| `Time.OrdIndicatorIsEnglishRule` | src/utils/time.rs:60-71 | For every number, the ending equals the rule stated on decimal digits: a tens digit of 1 gives "th", and otherwise the last digit decides. |
| `Time.Quantity` | src/utils/time.rs:40-56 | Each "{n} {unit}{s}" piece starts with the decimal count, a space and the unit name. When the count is 1 nothing follows the unit name. Otherwise exactly one character follows it, and that character is "s". These clauses fix the whole piece. |
| `Time.Ordinal` | src/utils/time.rs:13-21 | Each "{n}{ord}" piece starts with the decimal digits of `n` and is exactly two characters longer. |
| `Time.OrdinalReadsBack` | src/utils/time.rs:13-21 | Each "{n}{ord}" piece is the decimal digits of `n` followed by the two-letter ending of `n`. The digits read back as `n`. |
| `Time.FormatTimeOrd` | src/utils/time.rs:6-24 | For an input of at least one year, the text is "{year}{ord} year and {day}{ord} day", where `year = t / YEAR` and `day = (t / DAY) % 365`. Below one year, the text is "{day}{ord} day and {hour}{ord} hour", where `day = t / DAY` (the total number of whole days) and `hour = (t / HOUR) % 24`. |
| `Time.BelowYear` | src/utils/time.rs:7-11 | The year branch is taken exactly when the input is at least one year. Below one year, the day of the year is the total number of whole days. |
| `Time.FormatTimeOrdLeads` | src/utils/time.rs:11-23 | The text is never empty. It opens with the ordinal of the year when at least one year has passed. Otherwise it opens with the ordinal of the total number of whole days. |
| `Time.FormatUnits` | src/utils/time.rs:39-57 | The text is never empty and opens with a decimal digit. Its full meaning is stated by `Time.FormatUnitsMatchesSpec`. |
| `Time.FormatTime` | src/utils/time.rs:26-58 | For every input, the text is the leading unit's "{n} {unit}{s}". When the leading unit is not seconds and the next smaller unit is non-zero, " and " and that unit's "{n} {unit}{s}" follow. The leading unit is the largest non-zero one, or seconds when all are zero. Nothing else is ever shown. Further promises are stated by `Time.FormatTimeLeads`, `Time.FormatTimeZero`, `Time.YearsLeadDropHours`, `Time.DaysLeadDropMinutes` and `Time.HoursLeadDropSeconds`. |
| `Time.FormatUnitsMatchesSpec` | src/utils/time.rs:39-57 | For any split, the nine-branch if-chain equals the leading-unit statement above. |
| `Time.FormatTimeLeads` | src/utils/time.rs:39-57 | The text is never empty. It begins with the decimal count of the largest non-zero unit, or of the seconds when every unit is zero, followed by a space and that unit's name. |
| `Time.FormatTimeZero` | src/utils/time.rs:55-56 | Zero seconds renders as "0 seconds". |
| `Time.YearsLeadDropHours` | src/utils/time.rs:39-42 | When years lead, clearing the hours, minutes and seconds of the input does not change the text. |
| `Time.DaysLeadDropMinutes` | src/utils/time.rs:43-46 | When days lead, clearing the minutes and seconds of the input does not change the text. |
| `Time.HoursLeadDropSeconds` | src/utils/time.rs:47-50 | When hours lead, clearing the seconds of the input does not change the text. |
| `Decimal.NatToString` | src/utils/time.rs:40 | The rendering of a number inside `format!` has at least one character and contains only decimal digits. It starts with '0' exactly for the number 0, and it is one digit long exactly for numbers below 10. |
| `Decimal.ParseNatToString` | src/utils/time.rs:40 | Reading the decimal rendering back gives the number it came from. |
| `Decimal.NatToStringInjective` | src/utils/time.rs:40 | Different numbers never render as the same text. |

## Left out

- `src/physics.rs` and `src/physics/gravity.rs`: the gravity integrator. It does `f32` vector arithmetic on a thread driven by wall-clock measurements, with reader-writer locks. Floating point, clocks and concurrency are outside this model.
- `src/physics/simulation_state.rs`: atomic `f32` cells with relaxed ordering. The only content of this file is concurrency and floating point.
- `src/cosmos_object.rs`: orbit set-up uses square roots and trigonometry on `f32`, and drawing is rendering. The physical-quantity type it imports is not part of this model.
- `src/app.rs`, `src/utils/painter.rs` and `src/main.rs`: user interface, camera transforms, drawing, font and asset loading, and process start-up.
- The model produces text as a sequence of characters. Rust's allocation of a `String` and the `&'static str` result of `ord_indicator` are not modelled.
