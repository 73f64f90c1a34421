# Timezone converter: a Dafny model

This project models the conversion logic of the `TimezoneConverter` React
component. The component holds three pieces of state:

- a from-zone, initially `"UTC"`;
- a to-zone, initially `"Asia/Ho_Chi_Minh"`;
- an optional moment: a Luxon `DateTime`, meaning six civil fields (year to
  second) attached to a zone.

Six event handlers change that state:

- changing the from-zone;
- changing the to-zone;
- editing in the date picker;
- the Now button;
- Swap;
- Reset.

The component derives two values from the state: `converted`, the moment's
instant read in the to-zone, and the picker's value, built by `luxonToDayjs`.

The model keeps apart the two ways a moment can move to another zone:

- `Zoned.RelabelZone` is Luxon's `DateTime.fromObject(fields, { zone })`. It
  keeps the six fields and attaches a new zone, so the instant moves. Changing
  the from-zone and Swap use it.
- `Zoned.SameInstantIn` is Luxon's `setZone`. It keeps the instant and
  recomputes the fields. `converted` uses it. The Now button reads the
  clock's instant in the from-zone with `Zoned.NowIn`, which gives the same
  result as `SameInstantIn` for any moment with that instant
  (`Zoned.NowInIsSameInstantIn`).

Modules:

- `CivilTime`: civil readings and a proleptic Gregorian day count. It uses
  Howard Hinnant's `days_from_civil` and `civil_from_days`. The model proves
  that the two are inverse to each other on valid dates, and extends them to
  seconds.
- `Zoned`: zone identifiers, an offset table and zoned moments. It defines the
  instant of a moment and the two conversions, and proves how they relate.
- `DayjsBridge`: the text `luxonToDayjs` builds (`${year}-MM-DD HH:mm:ss`). It
  includes a reader for that layout that stands in for dayjs, and the
  0-based/1-based month bridge used by the picker's `onChange`.
- `Converter`: the class `TimezoneConverter`, with fields `fromZone`, `toZone`
  and `date`, one method per handler, and the derived `Converted` and
  `PickerValue`. Methods after the class state what sequences of events do,
  using only the handlers' contracts.
- `Options`: `Option<T>`, which stands for `T | null`.

Time zones are fixed offsets. The class holds an `OffsetTable` (zone id to
seconds east of UTC), set at construction. The clock is an input: the
constructor, `OnNow` and `OnReset` take `now` in seconds since
1970-01-01 00:00:00 UTC.

Two points about the code shape the model:

- `luxonToDayjs` writes `${dt.year}` unpadded, while the layout it hands to
  dayjs, "YYYY-MM-DD HH:mm:ss", reads the year as exactly four digits.
  `DayjsBridge.ShortYearNotPadded` shows that year 999 gives
  `"999-01-01 00:00:00"`. `DayjsBridge.ShortYearUnreadable` shows that the
  picker then receives "Invalid Date". In the model, `DayjsBridge.LuxonToDayjs`
  gives "Invalid Date" for every year outside 1000..9999.
- No handler validates its input: zone names are not checked, and civil
  fields from the picker are taken as they come. The model's handlers accept
  every input, as the code does. Calendar validity is kept as a separate
  invariant, `CalendarValid`, which holds whenever the picker supplies real
  calendar values.

## Model

| member | source | states |
|---|---|---|
| CivilTime.CivilFromDaysCorrect | src/components/TimezoneConverter.tsx:65 | the date computed from any day count exists in the calendar, and its day count is that number |
| CivilTime.DaysFromCivilInverse | src/components/TimezoneConverter.tsx:65 | every valid calendar date is recovered from its day count |
| CivilTime.DaysFromCivilInjective | src/components/TimezoneConverter.tsx:65 | two valid dates with the same day count are equal |
| CivilTime.UnixEpochDay | src/components/TimezoneConverter.tsx:65 | day 0 is 1970-01-01; 2024-01-01 is day 19723 |
| CivilTime.CivilFromLocalSeconds | src/components/TimezoneConverter.tsx:65 | every seconds count names a valid reading, and that reading's seconds count is the input |
| CivilTime.LocalSecondsInverse | src/components/TimezoneConverter.tsx:65 | every valid reading is recovered from its seconds count |
| CivilTime.LocalSecondsInjective | src/components/TimezoneConverter.tsx:65 | two valid readings with the same seconds count are equal |
| Zoned.InstantRecoversReading | src/components/TimezoneConverter.tsx:65 | the instant Luxon keeps for a valid moment loses nothing: read in the moment's own zone it gives the moment back |
| Zoned.RelabelZone | src/components/TimezoneConverter.tsx:49-59 | `DateTime.fromObject(fields, { zone })` keeps all six fields and attaches the given zone |
| Zoned.SameInstantIn | src/components/TimezoneConverter.tsx:65 | `setZone(zone)` gives a valid reading in `zone` that denotes the same instant |
| Zoned.NowIn | src/components/TimezoneConverter.tsx:130 | `DateTime.now().setZone(zone)` gives a valid reading in `zone` whose instant is the clock reading |
| Zoned.NowInUnique | src/components/TimezoneConverter.tsx:130 | the moment Now gives is the one valid reading in the zone whose instant is the clock reading |
| Zoned.NowInIsSameInstantIn | src/components/TimezoneConverter.tsx:130 | reading the clock's instant in a zone agrees with `setZone` of any moment with that instant |
| Zoned.RelabelShiftsInstant | src/components/TimezoneConverter.tsx:49-59 | `DateTime.fromObject` with a new zone keeps all six fields and moves the instant by the old offset minus the new offset |
| Zoned.SameInstantUnique | src/components/TimezoneConverter.tsx:65 | a valid reading in the target zone with the same instant is exactly the result of `setZone` |
| Zoned.SameInstantInOwnZone | src/components/TimezoneConverter.tsx:65 | converting a valid moment to its own zone returns it unchanged |
| Zoned.SameInstantRoundTrip | src/components/TimezoneConverter.tsx:65 | converting to another zone and back restores a valid moment |
| Zoned.RelabelIsSameInstantIff | src/components/TimezoneConverter.tsx:46-65 | relabelling and instant-preserving conversion give the same moment exactly when the two zones have equal offsets |
| Zoned.NewYearInUtc | src/components/TimezoneConverter.tsx:27-29 | the clock reading 19723 days after the epoch, read in UTC, is 2024-01-01 00:00:00 |
| Zoned.HoChiMinhExample | src/components/TimezoneConverter.tsx:136-141 | with UTC+7, 2024-01-01 00:00:00 UTC becomes 2024-01-01 07:00:00 in Asia/Ho_Chi_Minh |
| DayjsBridge.NatToDecimal | src/components/TimezoneConverter.tsx:35-39 | `String(n)` is a non-empty run of digits, one digit long exactly when n < 10 |
| DayjsBridge.DecimalRoundTrip | src/components/TimezoneConverter.tsx:35-39 | reading the digits of `String(n)` gives back n |
| DayjsBridge.IntTextRoundTrip | src/components/TimezoneConverter.tsx:35 | reading `${year}` back as a signed decimal gives the year, negative years included |
| DayjsBridge.DecimalLength | src/components/TimezoneConverter.tsx:35 | `String(n)` has at most k digits exactly when n < 10^k |
| DayjsBridge.IntToDecimal | src/components/TimezoneConverter.tsx:35 | `${year}` is a minus sign exactly for negative years, then digits; it is four digits exactly for the years 1000..9999 |
| DayjsBridge.Pad2 | src/components/TimezoneConverter.tsx:35-39 | `String(n).padStart(2, "0")` has at least two characters, exactly two for 0..99, and adds nothing once n has two digits |
| DayjsBridge.FieldsText | src/components/TimezoneConverter.tsx:35-39 | the part after the year starts with "-" and is 15 characters long for a valid reading |
| DayjsBridge.WallTimeText | src/components/TimezoneConverter.tsx:35-39 | the text handed to dayjs begins with the year exactly as `${dt.year}` writes it |
| DayjsBridge.Pad2Digits | src/components/TimezoneConverter.tsx:35-39 | `String(n).padStart(2, "0")` of a field below 100 is two digits that read back as n |
| DayjsBridge.WallTimeTextShape | src/components/TimezoneConverter.tsx:35-39 | for a valid reading, the text is the unpadded year followed by exactly 15 characters |
| DayjsBridge.FourDigitYearFixedWidth | src/components/TimezoneConverter.tsx:35-40 | a year of 1000..9999 gives a text exactly as long as the layout "YYYY-MM-DD HH:mm:ss" |
| DayjsBridge.ShortYearNotPadded | src/components/TimezoneConverter.tsx:35 | the year is not padded: year 999 gives "999-01-01 00:00:00" |
| DayjsBridge.OtherYearUnreadable | src/components/TimezoneConverter.tsx:34-41 | for a valid reading whose year is not four digits, reading the text with the layout gives "Invalid Date" |
| DayjsBridge.ShortYearUnreadable | src/components/TimezoneConverter.tsx:32-43 | a moment in year 999 reaches the picker as "Invalid Date" |
| DayjsBridge.CivilOfDayjs | src/components/TimezoneConverter.tsx:115-120 | the civil reading built with `month() + 1` gives back the same Dayjs fields |
| DayjsBridge.WallTimeRoundTrip | src/components/TimezoneConverter.tsx:32-43 | for a valid reading with a year of 1000..9999, reading the text with the layout gives its Dayjs fields, with the month 0-based |
| DayjsBridge.LuxonToDayjs | src/components/TimezoneConverter.tsx:32-43 | null exactly for a null moment; for a valid moment with a year of 1000..9999, the picker value carries its fields with a 0-based month; for any other year it is "Invalid Date" |
| DayjsBridge.PickerRoundTrip | src/components/TimezoneConverter.tsx:109-126 | for a year of 1000..9999, showing a valid moment in the picker and mapping the value back with `month() + 1` in the same zone gives the same moment |
| DayjsBridge.PickerValueRoundTrip | src/components/TimezoneConverter.tsx:109-126 | a valid picker value with a year of 1000..9999, turned into a moment and shown again, gives the same picker value |
| Converter.TimezoneConverter.constructor | src/components/TimezoneConverter.tsx:25-29 | initial state: from-zone "UTC", to-zone "Asia/Ho_Chi_Minh", moment = now in UTC; the invariants hold |
| Converter.TimezoneConverter.Converted | src/components/TimezoneConverter.tsx:65 | null exactly when the moment is null; otherwise a valid reading in the to-zone with the moment's instant |
| Converter.TimezoneConverter.PickerValue | src/components/TimezoneConverter.tsx:109 | null exactly when the moment is null; otherwise the moment's fields with a 0-based month for a year of 1000..9999, and "Invalid Date" for any other year |
| Converter.TimezoneConverter.HandleFromZoneChange | src/components/TimezoneConverter.tsx:46-62 | from-zone becomes the new zone, the to-zone does not change, the moment keeps its six fields in the new zone (null stays null), and the moment's zone equals the from-zone afterwards |
| Converter.TimezoneConverter.SetToZone | src/components/TimezoneConverter.tsx:189 | only the to-zone changes; the invariant is preserved |
| Converter.TimezoneConverter.HandleSwap | src/components/TimezoneConverter.tsx:68-90 | the zones change places; the moment keeps its six fields and is re-anchored to the old to-zone (null stays null); the moment's zone equals the from-zone |
| Converter.TimezoneConverter.OnPickerChange | src/components/TimezoneConverter.tsx:110-126 | a picked value becomes its fields with `month() + 1`, in the from-zone; a cleared picker sets the moment to null; the zones do not change |
| Converter.TimezoneConverter.OnNow | src/components/TimezoneConverter.tsx:130 | the moment becomes the clock's instant read in the from-zone; the zones do not change |
| Converter.TimezoneConverter.OnReset | src/components/TimezoneConverter.tsx:173-177 | state becomes "UTC", "Asia/Ho_Chi_Minh", now in UTC, a function of the clock reading alone |
| Converter.SwapTwice | src/components/TimezoneConverter.tsx:68-90 | two swaps restore the zone pair, and restore the moment when it was anchored to the from-zone |
| Converter.SwapRelabelsRatherThanConverts | src/components/TimezoneConverter.tsx:65-90 | after a swap, the moment equals the previous `converted` exactly when the two zones have equal offsets |
| Converter.PickThenChangeFromZone | src/components/TimezoneConverter.tsx:46-62 | picking fields and then changing the from-zone leaves those fields in the new zone, whatever the old zone was |
| Converter.PickerEchoKeepsDate | src/components/TimezoneConverter.tsx:109-126 | for a year of 1000..9999, handing the displayed picker value back to `onChange` leaves the whole state as it was |
| Converter.InitialConversionExample | src/components/TimezoneConverter.tsx:25-29 | a component mounted at 2024-01-01 00:00:00 UTC shows that moment, and its `converted` is 07:00:00 in Asia/Ho_Chi_Minh |

## Left out

- Luxon's time-zone database and daylight-saving rules are replaced by a fixed offset per zone (`OffsetTable`). Gaps and overlaps in `DateTime.fromObject` do not arise in the model.
- `DateTime.now()` is an input in whole seconds. Milliseconds are dropped, and no clock is modelled.
- Luxon's invalid `DateTime` values are not modelled. Luxon makes one from an unknown zone name or from impossible fields. The model instead tracks `CalendarValid` next to the zone invariant.
- Zone-catalog checks and error kinds (invalid zone, invalid civil time, clock failure) are not modelled, because the component performs none. `TIMEZONES` (`src/data/timezones`) is not part of this model.
- Dayjs's own string parser is not modelled. `DayjsBridge.ParseWallTime` is the model's reader for "YYYY-MM-DD HH:mm:ss": nineteen characters, a four-digit year and two-digit fields. Any other text gives "Invalid Date" in the model, including a year of five or more digits. Dayjs's lenient matching is not modelled: its `YYYY` takes the first four digits it finds, so a text such as "10000-01-01 00:00:00" or "-1000-01-01 00:00:00" would read as a date in year 1000 there rather than as "Invalid Date".
- DayjsBridge.LuxonToDayjs: dayjs builds the picker value with `new Date(y, M, d, h, m, s)` in the browser's local time zone. A wall time that falls in a daylight-saving gap of that zone is moved forward (02:30 on 2024-03-31 becomes 03:30 in a browser set to Europe/Berlin), so the picker does not always show the moment's own fields. The model has no browser zone: `LuxonToDayjs`, `WallTimeRoundTrip`, `PickerRoundTrip`, `PickerValueRoundTrip`, `Converter.TimezoneConverter.PickerValue` and `Converter.PickerEchoKeepsDate` hold only for wall times that exist in the browser's zone.
- What the picker's `onChange` receives once it shows "Invalid Date" is not modelled. `OnPickerChange` takes a cleared picker or a set of fields.
- The rendered output is not modelled: JSX, antd widgets, icons and styling, including the `toFormat("yyyy-MM-dd HH:mm:ss")` texts at lines 141, 220 and 231.
- Integers are unbounded. Luxon's range limits on dates and JavaScript's floating-point numbers are not modelled.
- React state batching and re-render timing are not modelled. Each handler is one atomic transition.
- `src/components/MainBrandLogo.tsx` and `src/App.tsx` are not modelled. They only present and compose.
