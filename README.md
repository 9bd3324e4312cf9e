# pptq-grinder, modelled in Dafny

pptq-grinder is a browser page. It fetches a list of tournament records
("pptqs"), turns each one into an `Event`, lists the upcoming events in a table
and puts them on a Google map. Clicking a marker opens that event's info window
and closes any other. This project models the page's logic, which lives in
`js/grinder.js`, and proves what that logic promises.

- `Strings` (`strings.dfy`) holds the string tools the formatting needs.
  - `Join` is the `Array.prototype.join` formatAddress uses.
  - `Split` is its inverse, used as a partner.
  - `IntToDecimal` is JavaScript's number-to-text conversion for integers of magnitude below 10^21, which covers every month, day and year part `dateString` prints.
  - `ParseInt` is its inverse.
- `Calendar` (`calendar.dfy`) holds the page's dates.
  - A `Date` is stored as the local calendar fields a JavaScript `Date` reports.
  - `JsDate` adds the "Invalid Date" that `new Date(NaN)` gives.
  - `Yesterday` is the fixed `yesterday`: midnight of the day before load time.
  - `PastDate` is `Event.prototype.pastDate`.
  - `DateString` is `Event.prototype.dateString`. JavaScript's truncating `%` is written out as `JsRemainder100`.
- `Records` (`records.dfy`) holds the fetched data.
  - A `Record` has text fields (an absent key reads as `undefined`) and an optional location.
  - `formatAddress` is `FormatAddress`, built from its map, filter and join steps.
  - The start-date parse and the column copy the `Event` constructor does are `StartDateOf` and `CopiedColumns`.
- `App` (`app.dfy`) holds the two objects the page mutates.
  - The class `Event` has constant copied fields. Its mutable fields are `marker` and `infoWindow`, and `SetMarker` creates them lazily.
  - The class `Grinder` has the fields `events`, `activeEvent` and `showPastEvents`, plus a ghost `rows` field: the table rows appended so far.
  - `RenderEvents` is `renderEvents`, with its per-record callback split into `AddEvent` and `ShowUnlessPast`.
  - `ClickEvent` is `clickEvent`.
  - `Grinder.Valid()` states the page's goal: every open info window is the active event's, so at most one is open (`OpenWindowsAreActive`). It also holds every event's own invariant: a marker and its info window exist together, only with a location, and at most one marker was ever created.

Google Maps objects are plain values: a `Marker` is a position, a title and the
map it is shown on, and an `InfoWindow` is closed or open on a map. The map
passed to `setMarker` is a `MapRef`. `NoMap` stands for the `null` that hides a
marker. `Date.parse` is the parameter `parses`: a table from the texts it can
read to the dates they denote. Any other text gives an invalid date, and so
does a record without a start date. The load time `now` is a parameter of the
`Grinder` constructor.

The comment at `js/grinder.js:162` says only upcoming or current events are
shown. The code compares the start time with midnight of the day before,
`startDate <= yesterday`. The model follows the code. `PastDateRule` shows that
the two agree when start times are at midnight. An event later on the previous
day is still listed. The comment on `dateString` says "MM/DD/YY", but nothing is
zero-padded. `NoZeroPadding` shows "1/5/5" for 5 January 2005.

## Model

| member | source | states |
|---|---|---|
| Strings.JoinSplit | js/grinder.js:6 | cutting a string at every separator and joining the pieces back gives the string |
| Strings.SplitJoin | js/grinder.js:6 | parts that do not contain the separator's first character are recovered exactly by splitting their join; the join is injective on them |
| Strings.IntToDecimal | js/grinder.js:127-129 | the text of an integer is non-empty and made of digits and '-'; it is unpadded: it starts with '0' only when it is "0", and a leading minus sign is followed by a non-zero digit |
| Strings.ParseIntOfDecimal | js/grinder.js:127-129 | reading the decimal text of any integer gives back that integer |
| Calendar.DaysInMonth | js/grinder.js:22 | a month has 28 to 31 days, and 29 exactly for February of a leap year |
| Calendar.YesterdayIsPreviousDay | js/grinder.js:21-22 | `yesterday` is a valid midnight strictly before today, the next day after it is today's midnight, and no valid day lies between them |
| Calendar.PastDateRule | js/grinder.js:132-134 | a past event starts before today; one two or more days back is past; one on the day before is past exactly when it starts at midnight; for midnight starts, past means before today |
| Calendar.TodayIsNotPast | js/grinder.js:132-134 | an event dated today, at any hour, is not past |
| Calendar.JsRemainder100Rule | js/grinder.js:129 | the truncating remainder differs from its operand by a multiple of 100, lies strictly between -100 and 100, and takes the operand's sign |
| Calendar.TwoDigitYearRange | js/grinder.js:129 | the year part is in 0..99 from 1900 on and in -99..0 before; in 2000..2099 it is the year minus 2000 |
| Calendar.NumeralsRoundTrip | js/grinder.js:127-129 | three integers written in decimal and joined by "/" split back into three unpadded numerals that read back as those integers |
| Calendar.DateStringRoundTrip | js/grinder.js:126-130 | a date's string has three unpadded "/"-separated parts, which read back as the 1-based month, the day and the two-digit year |
| Calendar.DateStringRanges | js/grinder.js:126-130 | for a valid date from 1900 on, the parts are a month in 1..12, a day in 1..31 and a year in 0..99 |
| Calendar.InvalidDateString | js/grinder.js:126-130 | an invalid date renders as "NaN/NaN/NaN", which does not read back as a date |
| Calendar.NoZeroPadding | js/grinder.js:125-130 | 5 January 2005 renders as "1/5/5", with no zero padding |
| Calendar.NegativeYearPart | js/grinder.js:129 | 3 June 1850 renders as "6/3/-50": before 1900 the year part is negative |
| Records.LookupAll | js/grinder.js:2-4 | the map step yields one term per level, in order, each the level's value or undefined |
| Records.KeepNonEmpty | js/grinder.js:4-6 | the filter step keeps at most as many terms, each non-empty, and keeps a text exactly when it is non-empty and among the defined terms |
| Records.KeepThree | js/grinder.js:4-6 | filtering three terms keeps each one, in order, exactly when it is defined and non-empty |
| Records.AddressTermsInOrder | js/grinder.js:1-7 | the joined terms are city, region and country, in that order, each present exactly when defined and non-empty |
| Records.FormatAddressEmpty | js/grinder.js:1-7 | the address is "" exactly when all three levels are undefined or empty |
| Records.FormatAddressSegments | js/grinder.js:1-7 | when no level contains a comma and the address is not "", cutting the address at ", " gives back exactly the kept terms, none of them empty (the empty address splits into [""], not into the empty list of terms) |
| App.Event.constructor | js/grinder.js:25-39 | the event's start date is the parsed `startDate` (invalid when absent or unreadable); every other column key present in the record is copied unchanged and nothing else; the owner, location and index are stored as given; there is no marker or info window yet |
| App.Event.SetMarker | js/grinder.js:70-94 | without a location nothing changes; the first call creates the marker on the given map, titled with the venue name, and a closed info window; later calls only move the existing marker to the given map; at most one marker is ever created, kept as the event invariant that `Grinder.Valid` holds for every event |
| App.Event.OpenInfoWindow | js/grinder.js:194 | the info window becomes open on the given map |
| App.Event.CloseInfoWindow | js/grinder.js:190 | the info window becomes closed |
| App.ShownAppend | js/grinder.js:161-170 | the shown events of two lists concatenated are the first list's shown events followed by the second's, so input order is kept |
| App.ShownSingle | js/grinder.js:165-169 | a single event is shown exactly when it is not hidden as past |
| App.ShownMembers | js/grinder.js:165-169 | an event is shown exactly when it is one of the events and is not hidden as past |
| App.ShownAll | js/grinder.js:165-169 | with past events shown, every event is shown |
| App.Grinder.OpenWindowsAreActive | js/grinder.js:174-196 | in a valid state the open info windows are exactly the active event's, so at most one is open |
| App.Grinder.constructor | js/grinder.js:136-149 | the app starts on its map with the JSON URL, past events hidden, no events, no rows and no active event, in a valid state |
| App.Grinder.AddEvent | js/grinder.js:163-164 | a new event built from the record and its position is pushed onto the events, with no marker yet; rows and the active event are unchanged |
| App.Grinder.ShowUnlessPast | js/grinder.js:165-169 | unless past events are hidden and the event is past, its row is appended and its marker created on the map; otherwise nothing changes |
| App.Grinder.RenderRecord | js/grinder.js:161-170 | one callback step extends the events by the new event and the rows by its shown part, and each new event keeps the state it was rendered in |
| App.Grinder.RenderedAllSnoc | js/grinder.js:161-170 | appending an event rendered from the next record keeps the new events rendered from the records in order |
| App.Grinder.RenderEvents | js/grinder.js:158-171 | the events grow by exactly one fresh event per record, in order, and earlier events are unchanged; each new event is built from its record with its position as index; rows grow by exactly the new events that are shown, in order; only shown events with a location get a marker, placed on the map |
| App.Grinder.ClickEvent | js/grinder.js:174-196 | with no active event the clicked one becomes active and open; clicking another event closes the previous window and opens and activates the clicked one; clicking the active event closes it and clears it; afterwards the open windows are exactly the active event's; events, rows, markers, marker counts and every other window are unchanged, and every event stays valid |

## Left out

- DOM construction is not modelled: `createRow`, `infoWindowContent`, `innerText`, `innerHTML` and the `mailto:` links. A table row is the ghost `rows` entry for its event, and an info window's HTML content is not kept.
- Google Maps is not modelled: `google.maps.Map`, the marker's rendering, `addListener` and the map's center and zoom. Markers and info windows are plain values. The click listener is represented by the precondition of `ClickEvent`: the clicked event has an info window.
- `$.ajax` (`fetchEvents`), `navigator.geolocation`, `initializeApp` and `console.log` are I/O and asynchronous callbacks. The fetched document is the parameter `data` of `RenderEvents`.
- `Date.parse` is a table passed as `parses`. Time zones, daylight-saving time and the real clock are left out. A date is its local calendar fields, and their lexicographic order stands for the time-value order.
- Record fields are `string`-valued. Non-string values, and a `location` whose `geometry` is missing, are not modelled.
- A user closing an info window with its own close button is not modelled, because the page's code does not observe it.
- Numbers of magnitude 10^21 or more, which JavaScript prints in exponent notation, and integers beyond 2^53, which it cannot hold exactly, are not modelled by `IntToDecimal`; no date part comes near them.
- A column absent from the record is left out of an event's `fields` instead of being stored as an `undefined` property; reading it gives `undefined` either way.
