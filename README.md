# Calendar feed sync, modelled in Dafny

Family Hub lets a parent attach an iCalendar feed (an `.ics` URL) to a
calendar. This project models the two pieces that turn such a feed into rows
of the `calendar_events` table:

- **The feed parser** (`src/lib/server/ical-parser.js`). It unfolds the raw
  text into logical content lines (section 3.1 of RFC 5545) and splits each
  line into name, parameters and value. It reads DATE and DATE-TIME values
  (sections 3.3.4 and 3.3.5) into JavaScript dates and adds DURATION values
  (section 3.3.6). A two-state machine then walks the VEVENT blocks
  (section 3.6.1) and emits an event for each block that has both a start
  and an end.
- **The sync endpoint** `POST /api/calendar/sync`
  (`src/routes/api/calendar/sync/+server.js`). It runs these steps:
  - checks the request;
  - fetches and parses the calendar's feed;
  - keeps the events that touch the window from 30 days before now to
    90 days after;
  - upserts one row per kept event, keyed by `(calendar_id, event_id)`,
    and counts successes and failures;
  - deletes the calendar's rows whose UID is no longer in the window;
  - stamps `last_synced`.

Files, one module each:

| file | module | what it holds |
|---|---|---|
| `wrappers.dfy` | `Wrappers` | `Option` |
| `js_text.dfy` | `JsText` | the JavaScript string built-ins the parser uses (`indexOf`, `split`, `trim`, `toUpperCase` and `parseInt`), and a `join` that states the inverse of `split` |
| `civil_time.dfy` | `CivilTime` | `Date.UTC` and the local-time `Date` constructor, as days from the civil date, proved against a year-by-year and month-by-month count |
| `ical_lines.dfy` | `ICalLines` | `unfoldLines` and `parseLine` |
| `ical_time.dfy` | `ICalTime` | `parseICalDate` and `addDuration` |
| `ical_parser.dfy` | `ICalParser` | the `parseICal` state machine, as a step function and as the loop over lines |
| `calendar_sync.dfy` | `CalendarSync` | the window, the event table, the store class and the endpoint |

How JavaScript values are represented:
- A `Date` is an `Instant`: a time value in integer milliseconds, or
  `Invalid` for an Invalid Date.
- A string is a sequence of characters.
- JavaScript truthiness is written out: an empty string and the number 0
  are false, and every `Date` object is true, valid or not.

What the model takes from its surroundings, as parameters:
- The clock `now` of the endpoint.
- The offset of local time from UTC, as a fixed number of milliseconds.
- `new Date(text)`, the general date-string parser, as a function.
- The text that `Date.now()` and `Math.random()` produce for the default
  UID of the `k`-th event, as a function of `k`.
- The feed fetch, as a function from URL to text or thrown error.
- Whether the auth service accepts the token.

The database is a class with two maps: the calendars by id, and the event
rows by `(calendar, UID)`. An upsert or a prune may fail; which ones failed
comes back from the endpoint as ghost results, so its postcondition can
state the new tables exactly.

## Definitions

The functions below compute what the source computes. They are the
reference the lemmas and methods of the table are stated against, so their
contracts are in those rows rather than on the functions themselves.

- `JsText.ParseInt`: `parseInt` on the text it is given (`src/lib/server/ical-parser.js:119-132`). The `parseInt` calls of `addDuration` read digit runs the pattern has already matched; `ICalTime.Component` reads them as their decimal value.
- `CivilTime.DaysFromCivil`: the day number of a civil date (`src/lib/server/ical-parser.js:122`, `135`, `140`).
- `CivilTime.MakeDay`, `CivilTime.DateUtc` and `CivilTime.DateLocal`: `Date.UTC` and the local-time `Date` constructor, with a zero-based month that may run over (`src/lib/server/ical-parser.js:122`, `135`, `140`).
- `ICalLines.ReplaceCrLf`, `ICalLines.ReplaceCr` and `ICalLines.RemoveFolds`: the three `replace` calls (`src/lib/server/ical-parser.js:76-78`).
- `ICalLines.ParamsOf`: the parameter map the `for` loop builds (`src/lib/server/ical-parser.js:97-104`).
- `ICalLines.PropertyOf`: `parseLine` (`src/lib/server/ical-parser.js:88-107`).
- `ICalTime.ReadICalDate` and `ICalTime.InstantOf`: the length tests and field reads of `parseICalDate`, and the `Date` built from them (`src/lib/server/ical-parser.js:113-145`).
- `ICalTime.ParseICalDate`: `parseICalDate` (`src/lib/server/ical-parser.js:113-145`).
- `ICalTime.MatchDuration`, `ICalTime.Length` and `ICalTime.EndAfter`: the duration pattern, its length in milliseconds, and `addDuration` (`src/lib/server/ical-parser.js:151-169`).
- `ICalParser.Apply`: the `switch (name)` (`src/lib/server/ical-parser.js:42-65`).
- `ICalParser.Emit`: the event pushed at `END:VEVENT` (`src/lib/server/ical-parser.js:29-35`).
- `ICalParser.Step`: one iteration of the loop (`src/lib/server/ical-parser.js:20-65`).
- `ICalParser.Run`: the whole loop (`src/lib/server/ical-parser.js:19-66`).
- `ICalParser.EventsOf`: `parseICal` (`src/lib/server/ical-parser.js:12-69`).
- `ICalParser.Fold`: the body lines of one block applied in order (`src/lib/server/ical-parser.js:42-65`).
- `CalendarSync.Refusal`: the guards before the `try` (`src/routes/api/calendar/sync/+server.js:14-48`).
- `CalendarSync.RowOf`: the upserted row (`src/routes/api/calendar/sync/+server.js:74-82`).
- `CalendarSync.ApplyUpserts`: the upsert loop on the table (`src/routes/api/calendar/sync/+server.js:70-91`).
- `CalendarSync.Uids`: `feedUids` (`src/routes/api/calendar/sync/+server.js:94`).
- `CalendarSync.PruneTable`: the listing and deletion of stale rows (`src/routes/api/calendar/sync/+server.js:95-108`).
- `CalendarSync.Reconcile`: the upserts followed by the prune, if it ran (`src/routes/api/calendar/sync/+server.js:70-108`).

## Model

| member | source | states |
|---|---|---|
| JsText.IndexOf | src/lib/server/ical-parser.js:89 | `indexOf` is -1 exactly when the character is absent. Otherwise it is the position of its first occurrence. |
| JsText.IndexOfFirst | src/lib/server/ical-parser.js:89-93 | In `a + c + b` with `c` not in `a`, the first `c` is at the length of `a`. |
| JsText.Split | src/lib/server/ical-parser.js:95 | `split` gives at least one piece, no piece holds the separator, and the pieces join back into the input. |
| JsText.SplitJoin | src/lib/server/ical-parser.js:95 | Splitting a join of separator-free pieces gives back the pieces (the inverse of `Split`). |
| JsText.TrimStart | src/lib/server/ical-parser.js:80 | `trimStart` yields a suffix of the input that does not start with whitespace. |
| JsText.TrimEnd | src/lib/server/ical-parser.js:80 | `trimEnd` yields a prefix of the input that does not end with whitespace. |
| JsText.TrimStartDropsWhitespace | src/lib/server/ical-parser.js:80 | Every character `trimStart` removes is whitespace. |
| JsText.TrimEndDropsWhitespace | src/lib/server/ical-parser.js:80 | Every character `trimEnd` removes is whitespace. |
| JsText.Trim | src/lib/server/ical-parser.js:80 | `trim` yields text with no whitespace at either end and no new characters. Text already trimmed is returned as is. |
| JsText.TrimSlice | src/lib/server/ical-parser.js:80 | `trim` yields a slice of its input, and every character before and after that slice is whitespace. |
| JsText.UpperChar | src/lib/server/ical-parser.js:96 | A lower-case ASCII letter becomes its capital (32 code points lower). Every other character is unchanged. No lower-case letter comes out. |
| JsText.ToUpper | src/lib/server/ical-parser.js:96 | `toUpperCase` keeps the length and applies that case mapping at every position, so no lower-case letter is left. |
| JsText.DigitRun | src/lib/server/ical-parser.js:119-132 | The digit run `parseInt` reads is the longest prefix of digits: all digits, and followed by a non-digit or the end. |
| JsText.NatToString | src/lib/server/ical-parser.js:119-132 | A number's decimal text is non-empty, all digits, without a leading zero, and denotes the number. |
| JsText.ParseIntOfDigits | src/lib/server/ical-parser.js:119-132 | `parseInt` of a non-empty string of decimal digits is its decimal value. |
| JsText.NatToStringParses | src/lib/server/ical-parser.js:119-132 | `parseInt` reads back every number written in decimal. |
| CivilTime.MarchYearLength | src/lib/server/ical-parser.js:135 | A year counted from March in the era formula is as long as the calendar year it ends in. |
| CivilTime.FebruaryLength | src/lib/server/ical-parser.js:135 | By the closed form, 1 March comes one February after 1 February (28 or 29 days by the leap-year rule). |
| CivilTime.MonthStep | src/lib/server/ical-parser.js:135 | By the closed form, the first of the next month comes one month's length after the first of this month. |
| CivilTime.FirstOfMonth | src/lib/server/ical-parser.js:135 | The first of month `m` comes after New Year's Day by the lengths of the months before `m`. |
| CivilTime.YearLength | src/lib/server/ical-parser.js:135 | Consecutive New Year's Days are one year's length (365 or 366 days) apart. |
| CivilTime.FirstOfYear | src/lib/server/ical-parser.js:135 | The closed form's New Year's Day equals the year-by-year count from 1970, for every year before or after 1970. |
| CivilTime.DaysFromCivilCounts | src/lib/server/ical-parser.js:135 | The days-from-civil closed form equals the reference count by years and months for every date. |
| CivilTime.MakeDayInYear | src/lib/server/ical-parser.js:120-122 | With a month in 0..11, `Date`'s zero-based MakeDay is the civil day count for the month one higher. |
| CivilTime.KnownDays | src/lib/server/ical-parser.js:135 | 1970-01-01 is day 0 and 2024-01-15 is day 19737. |
| ICalLines.ReplaceCr | src/lib/server/ical-parser.js:77 | `.replace(/\r/g, '\n')` keeps the length, turns every CR into a line feed and keeps every other character, so no CR is left. |
| ICalLines.RemoveFolds | src/lib/server/ical-parser.js:78 | Removing folds adds no character. |
| ICalLines.TrimAll | src/lib/server/ical-parser.js:80 | `.map(l => l.trim())` gives one line per piece: the trim of that piece, which `JsText.TrimSlice` shows is the piece with only whitespace cut from its two ends. |
| ICalLines.DropEmpty | src/lib/server/ical-parser.js:81 | `.filter(l => l.length > 0)` never lengthens the list. Every line it gives is non-empty and from the input, and every non-empty input line is among them. |
| ICalLines.DropEmptyAppend | src/lib/server/ical-parser.js:81 | The filter works piece by piece, so it keeps the order of the lines it keeps. |
| ICalLines.DropEmptyOne | src/lib/server/ical-parser.js:81 | A blank line is dropped and a non-empty one is kept. |
| ICalLines.DropEmptyKeeps | src/lib/server/ical-parser.js:81 | A list without empty lines passes the filter unchanged. |
| ICalLines.NormalizeNewlines | src/lib/server/ical-parser.js:76-77 | After both replacements no CR is left (`ICalLines.NormalizeHead` gives the mapping). |
| ICalLines.LinesOf | src/lib/server/ical-parser.js:79-81 | Every line the split, trim and filter give is non-empty, trimmed, and without CR or LF. |
| ICalLines.UnfoldLines | src/lib/server/ical-parser.js:74-82 | Every output line of `unfoldLines` is non-empty, trimmed, and without CR or LF. |
| ICalLines.ReplaceCrLfAppend | src/lib/server/ical-parser.js:76 | CRLF replacement distributes over a concatenation whose first part does not end in CR. |
| ICalLines.ReplaceCrLfLast | src/lib/server/ical-parser.js:76 | CRLF replacement keeps the last character. |
| ICalLines.ReplaceCrLfNoCr | src/lib/server/ical-parser.js:76 | Text without CR is unchanged by CRLF replacement. |
| ICalLines.ReplaceCrAppend | src/lib/server/ical-parser.js:77 | CR replacement distributes over concatenation. |
| ICalLines.NormalizeAppend | src/lib/server/ical-parser.js:76-77 | Line-end normalisation distributes over a concatenation whose first part does not end in CR. |
| ICalLines.RemoveFoldsAppend | src/lib/server/ical-parser.js:78 | Fold removal distributes over a concatenation whose first part does not end in LF. |
| ICalLines.RemoveFoldsNoBreak | src/lib/server/ical-parser.js:78 | Text without LF has no fold to remove. |
| ICalLines.NormalizeFold | src/lib/server/ical-parser.js:76-78 | Normalising line ends keeps a fold (LF plus space or tab) in place and acts on each side of it. |
| ICalLines.RemoveFoldBetween | src/lib/server/ical-parser.js:78 | A fold between two texts is dropped with nothing put in its place. |
| ICalLines.UnfoldJoinsFoldedLine | src/lib/server/ical-parser.js:74-82 | Text folded after any character other than CR or LF (LF plus one space or tab inserted there) unfolds to the same lines as the unfolded text. |
| ICalLines.CrLfJoinNormalizes | src/lib/server/ical-parser.js:76-77 | Lines joined by CRLF normalise to the same lines joined by LF. |
| ICalLines.CrFirst | src/lib/server/ical-parser.js:77 | A CR not followed by LF becomes one line feed. |
| ICalLines.PlainFirst | src/lib/server/ical-parser.js:76-77 | A character other than CR passes normalisation unchanged. |
| ICalLines.NormalizeHead | src/lib/server/ical-parser.js:76-77 | Read from the front, normalisation turns CRLF into one line feed and a lone CR into one line feed, and keeps every other character. These three cases determine the whole result. |
| ICalLines.CrStep | src/lib/server/ical-parser.js:77 | A lone CR after a line without CR becomes one line feed. |
| ICalLines.CrJoinNormalizes | src/lib/server/ical-parser.js:76-77 | Lines joined by lone CRs normalise to the same lines joined by LF. |
| ICalLines.JoinedLinesHaveNoFolds | src/lib/server/ical-parser.js:78 | Lines that do not start with a space or tab, joined by LF, contain no fold. |
| ICalLines.LinesOfJoin | src/lib/server/ical-parser.js:79-81 | Logical lines joined by LF split, trim and filter back into exactly those lines. |
| ICalLines.UnfoldCrLfJoin | src/lib/server/ical-parser.js:74-82 | Logical lines written with CRLF line ends unfold to exactly those lines, in order. |
| ICalLines.UnfoldCrJoin | src/lib/server/ical-parser.js:74-82 | Logical lines written with lone CR line ends unfold to exactly those lines, in order: a lone CR ends a line. |
| ICalLines.ParseLine | src/lib/server/ical-parser.js:88-107 | The loop that fills the parameter map gives the property `PropertyOf` describes. |
| ICalLines.ParamsStep | src/lib/server/ical-parser.js:99-104 | One more segment adds its upper-cased key if it has an `=`, and otherwise leaves the map unchanged. |
| ICalLines.LastNaming | src/lib/server/ical-parser.js:99-104 | Gives the position of the last segment naming a key: that segment names it, and no later one does. |
| ICalLines.ParamsLastWins | src/lib/server/ical-parser.js:99-104 | A key is in the map exactly when some segment names it. Its value is the text after the first `=` of the last such segment. |
| ICalLines.PropertyAtFirstColon | src/lib/server/ical-parser.js:89-96 | The value is everything after the first colon. The name is the upper-cased text before the first `;`. |
| ICalLines.ParseLineComposed | src/lib/server/ical-parser.js:89-106 | A line written as name, `;` segments, `:` and a value reads back as that upper-cased name, those segments' parameters and that value, whatever colons the value holds. |
| ICalLines.ParseLineWithoutColon | src/lib/server/ical-parser.js:90 | Without a colon the name is empty, there are no parameters, and the whole line is the value. |
| ICalLines.UpperKeeps | src/lib/server/ical-parser.js:96 | Text without lower-case ASCII letters upper-cases to itself. |
| ICalLines.SingleParam | src/lib/server/ical-parser.js:99-104 | One segment `KEY=value` gives the map `{KEY: value}`. |
| ICalLines.ParseLineOneParam | src/lib/server/ical-parser.js:86-106 | Parses `NAME;KEY=val:value`, the shape of `DTSTART;TZID=America/New_York:20240115T090000`, into `NAME`, `{KEY: val}` and `value`. |
| ICalTime.RemoveQuotes | src/lib/server/ical-parser.js:115 | The result has no `"`. Text without quotes is unchanged. RemoveQuotesChar and RemoveQuotesAppend state that exactly the quotes are deleted, with the rest kept in order. |
| ICalTime.CleanDateText | src/lib/server/ical-parser.js:115 | The text a date is read from has no quote and no whitespace at either end. Text already clean is read as is. CleanQuotedValue gives the reading of a quoted value. |
| ICalTime.RemoveQuotesChar | src/lib/server/ical-parser.js:115 | A `"` is deleted and every other character is kept. |
| ICalTime.RemoveQuotesAppend | src/lib/server/ical-parser.js:115 | Deleting quotes distributes over concatenation, so the kept characters stay in their order. |
| ICalTime.QuotedValue | src/lib/server/ical-parser.js:115 | A quoted value `"v"` without inner quotes reads as `v`. |
| ICalTime.CleanQuotedValue | src/lib/server/ical-parser.js:115 | The date text of a quoted value `"v"` is `v` trimmed. |
| ICalTime.PaddedValue | src/lib/server/ical-parser.js:119-132 | `parseInt` reads a zero-padded field as its number. |
| ICalTime.DateTextIsRead | src/lib/server/ical-parser.js:117-121 | Eight digits `YYYYMMDD` read as that year, month and day. |
| ICalTime.FloatingTextIsRead | src/lib/server/ical-parser.js:125-132 | `YYYYMMDDTHHMMSS` reads the six fields at fixed positions, as local time. |
| ICalTime.UtcTextIsRead | src/lib/server/ical-parser.js:125-134 | The same text with a trailing `Z` reads the same fields, as UTC. |
| ICalTime.ParsedAs | src/lib/server/ical-parser.js:113-145 | Parsing a value is reading its text and then building the instant the reading stands for. |
| ICalTime.DateOnlyInstant | src/lib/server/ical-parser.js:122 | A DATE is `Date.UTC` of its fields at midnight, less the local offset. |
| ICalTime.DateTimeInstant | src/lib/server/ical-parser.js:134-140 | A UTC DATE-TIME is `Date.UTC` of its fields. A floating one is that value less the local offset. |
| ICalTime.DateIsLocalMidnight | src/lib/server/ical-parser.js:117-123 | A DATE value is local midnight of its day. |
| ICalTime.UtcDateTimeIsDateUtc | src/lib/server/ical-parser.js:125-136 | A DATE-TIME ending in `Z` is `Date.UTC` of its fields, whatever the offset. |
| ICalTime.FloatingDateTimeIsLocal | src/lib/server/ical-parser.js:125-140 | A DATE-TIME without `Z` is local time, and any TZID parameter is not consulted. |
| ICalTime.DateIsMidnightDateTime | src/lib/server/ical-parser.js:117-140 | A DATE and the floating DATE-TIME at 00:00:00 of the same day are the same instant. |
| ICalTime.ExampleInstant | src/lib/server/ical-parser.js:135 | `Date.UTC(2024, 0, 15, 9, 0, 0)` is 1705309200000. |
| ICalTime.UtcExample | src/lib/server/ical-parser.js:134-136 | `20240115T090000Z` is 09:00 UTC on 15 January 2024. |
| ICalTime.Component | src/lib/server/ical-parser.js:153 | Reading one optional component never lengthens the rest of the text. |
| ICalTime.AddDuration | src/lib/server/ical-parser.js:151-169 | The four setter steps on a copy of the date give `EndAfter`, the start moved by the matched duration's length. |
| ICalTime.NoDesignatorKeepsStart | src/lib/server/ical-parser.js:153-155 | Text without `P` does not match, and the date comes back unchanged. |
| ICalTime.EndNotBeforeStart | src/lib/server/ical-parser.js:151-169 | The result is valid exactly when the date is, and never earlier. |
| ICalTime.MatchedEnd | src/lib/server/ical-parser.js:157-166 | A matched duration adds `7W + D` days, `H` hours, `M` minutes and `S` seconds. |
| ICalTime.ComponentReads | src/lib/server/ical-parser.js:153-161 | A written component `<n><unit>` reads back as `n`, and the scan continues after the unit. |
| ICalTime.LastComponentReads | src/lib/server/ical-parser.js:153-161 | The same holds for a component at the end of the text. |
| ICalTime.AbsentComponent | src/lib/server/ical-parser.js:153-161 | A component that is not there reads as absent (0), and nothing is consumed. |
| ICalTime.ClockTextMatches | src/lib/server/ical-parser.js:153-161 | `<h>H<m>M<s>S` reads as those hours, minutes and seconds. |
| ICalTime.DateComponentsMatch | src/lib/server/ical-parser.js:153-161 | `<w>W<d>D` followed by a time part reads as those weeks and days. |
| ICalTime.MatchAfterDesignator | src/lib/server/ical-parser.js:153 | The unanchored pattern matches from the character after the first `P`. |
| ICalTime.MatchDurationText | src/lib/server/ical-parser.js:153-161 | Every fully written duration matches as itself. |
| ICalTime.DurationTextAdvancesByLength | src/lib/server/ical-parser.js:151-169 | Any written duration moves a valid date by exactly its length. |
| ICalTime.HoursAndMinutesDuration | src/lib/server/ical-parser.js:151-169 | `PT<h>H<m>M` adds exactly `h` hours and `m` minutes; `PT1H30M` adds 90 minutes. |
| ICalTime.WeekExample | src/lib/server/ical-parser.js:163 | `P1W` adds exactly seven days. |
| ICalParser.ParseICal | src/lib/server/ical-parser.js:12-69 | The `for` loop with its `continue`s returns the events of the step machine run over the unfolded lines. |
| ICalParser.RunStep | src/lib/server/ical-parser.js:19 | Each iteration is one step of the machine. |
| ICalParser.RunOneMore | src/lib/server/ical-parser.js:19 | Running one more line is one more step. |
| ICalParser.RunAppendLast | src/lib/server/ical-parser.js:19 | Running `lines + rest` takes the last line of `rest` as one step after the others. |
| ICalParser.InsideBlock | src/lib/server/ical-parser.js:40-65 | Inside an open block, body lines only update the record, in order. |
| ICalParser.OutsideIgnored | src/lib/server/ical-parser.js:40 | Outside a block, every line other than `BEGIN:VEVENT` and `END:VEVENT` changes nothing. |
| ICalParser.BlockEmits | src/lib/server/ical-parser.js:20-38 | A whole block starts from an empty record and adds exactly its event if the record has start and end, and nothing otherwise. |
| ICalParser.EventsAtMostEnds | src/lib/server/ical-parser.js:26-36 | There are never more events than `END:VEVENT` lines. |
| ICalParser.NoEndNoEvents | src/lib/server/ical-parser.js:26-36 | Lines without `END:VEVENT` emit nothing. |
| ICalParser.UnterminatedBlock | src/lib/server/ical-parser.js:20-24 | A final `BEGIN:VEVENT` block that is never closed adds no event. |
| ICalParser.TwoEnds | src/lib/server/ical-parser.js:26-36 | Two `END:VEVENT` steps on a complete record emit it twice. |
| ICalParser.StrayEndReemits | src/lib/server/ical-parser.js:26-40 | A stray second `END:VEVENT` re-emits the previous record, even after lines outside a block. |
| ICalParser.OwnUidIsStable | src/lib/server/ical-parser.js:30 | An event with its own non-empty UID does not depend on the generated default. |
| ICalParser.DefaultUidFollowsEntropy | src/lib/server/ical-parser.js:30 | An event without a UID of its own gets `unknown_` and the generated text, so two runs whose generated texts differ give it different UIDs. |
| ICalParser.SameReading | src/lib/server/ical-parser.js:42-65 | A body line updates the record the same way under any generated UID text. |
| ICalParser.StepIgnoresEntropy | src/lib/server/ical-parser.js:20-65 | A step is the same under any generated UID text, unless it emits a record without a UID of its own. |
| ICalParser.NamedPrefix | src/lib/server/ical-parser.js:19-66 | If every emitting `END:VEVENT` of a feed finds a UID of its own, so does every one of a prefix of it. |
| ICalParser.RunIgnoresEntropy | src/lib/server/ical-parser.js:19-66 | When every emitted record carries a UID of its own, the whole run is the same under any generated UID text. |
| ICalParser.FeedIgnoresEntropy | src/lib/server/ical-parser.js:12-69 | Such a feed parses to the same events on every run of `parseICal`. |
| ICalParser.ApplyText | src/lib/server/ical-parser.js:56-64 | A SUMMARY, UID or TRANSP line sets its field, and other lines keep it. |
| ICalParser.LastTextWins | src/lib/server/ical-parser.js:56-64 | The last SUMMARY, UID or TRANSP line of a block wins. Without one the field keeps its value. |
| ICalParser.ApplyStart | src/lib/server/ical-parser.js:45-47 | DTSTART sets the start to the parsed date, and other lines keep it. |
| ICalParser.LastStartWins | src/lib/server/ical-parser.js:45-47 | The last DTSTART line of a block sets the start. |
| ICalParser.ApplyKeepsEnd | src/lib/server/ical-parser.js:44-65 | Only DTEND and DURATION can change the end. |
| ICalParser.EndNeedsEndOrDuration | src/lib/server/ical-parser.js:44-65 | Without a DTEND or DURATION line, a block leaves the end as it was. |
| ICalParser.EndRules | src/lib/server/ical-parser.js:48-55 | DTEND always overwrites the end. DURATION sets it from the start only when a start is set and no end is, and otherwise changes nothing. |
| ICalParser.FoldAppend | src/lib/server/ical-parser.js:42-65 | Applying two runs of body lines is applying the first run and then the second. |
| ICalParser.LastValueAppend | src/lib/server/ical-parser.js:42-65 | The last line with a given name in two runs of lines is in the second run if it has one, and otherwise in the first. |
| ICalParser.ApplyKeepsUnset | src/lib/server/ical-parser.js:44-55 | With no start and no end set, a line other than DTSTART or DTEND sets neither. |
| ICalParser.UnsetUntilStart | src/lib/server/ical-parser.js:44-55 | Before the first DTSTART line, and with no DTEND line, start and end stay unset: a DURATION line there is ignored. |
| ICalParser.BlockWithoutEnd | src/lib/server/ical-parser.js:26-55 | A block with no DTEND line, and no DURATION line after its first DTSTART line, adds no event. A DURATION line before that DTSTART does not help. |
| ICalParser.BodyEvent | src/lib/server/ical-parser.js:29-35 | The emitted fields are the last UID (if non-empty, else `unknown_` and a generated text), the last SUMMARY (else `Busy`) and the last DTSTART. `isBusy` is false exactly when TRANSP is `TRANSPARENT`. |
| ICalParser.BlockEvent | src/lib/server/ical-parser.js:28-35 | A complete block appends exactly one event, the one its record makes. |
| ICalParser.FoldPair | src/lib/server/ical-parser.js:44-65 | Two body lines apply their properties in order. |
| ICalParser.StartThenDurationApplied | src/lib/server/ical-parser.js:45-55 | DTSTART then DURATION gives an end of the start moved by the duration. |
| ICalParser.StartThenDuration | src/lib/server/ical-parser.js:45-55 | The same holds for the two lines as written. |
| ICalParser.DurationThenStartApplied | src/lib/server/ical-parser.js:51-55 | DURATION before any DTSTART is ignored. |
| ICalParser.DurationBeforeStart | src/lib/server/ical-parser.js:51-55 | The same holds for the two lines as written: no end is set. |
| CalendarSync.Window | src/routes/api/calendar/sync/+server.js:55-63 | The filter keeps at most the input, and each kept event ends after now−30 days and starts before now+90 days. |
| CalendarSync.WindowKeeps | src/routes/api/calendar/sync/+server.js:61-63 | An event is kept exactly when it is in the feed and in the window. A date compared with an Invalid Date is never in it. |
| CalendarSync.WindowAppend | src/routes/api/calendar/sync/+server.js:61-63 | The filter keeps feed order. |
| CalendarSync.LastWritten | src/routes/api/calendar/sync/+server.js:70-91 | Gives the position of the last event with a UID whose upsert succeeded; no later one has both. |
| CalendarSync.UpsertedRow | src/routes/api/calendar/sync/+server.js:70-91 | After the loop, a row of this calendar with a successfully written UID holds the last such event (a later duplicate wins). Every other row is as it was. |
| CalendarSync.PruneKeeps | src/routes/api/calendar/sync/+server.js:94-107 | The prune deletes exactly this calendar's rows whose UID is not kept, and leaves every other row as it was. |
| CalendarSync.UidsHas | src/routes/api/calendar/sync/+server.js:94 | Every kept event's UID is in the feed UID set. |
| CalendarSync.ReconciledRow | src/routes/api/calendar/sync/+server.js:70-108 | After a sync that pruned, this calendar's rows are the kept UIDs', either freshly written or as before. Rows of other calendars are untouched. |
| CalendarSync.EveryUidWritten | src/routes/api/calendar/sync/+server.js:70-94 | When no upsert fails, every kept UID has a last writer. |
| CalendarSync.FullSyncMirrors | src/routes/api/calendar/sync/+server.js:70-108 | When no upsert fails and the prune ran, the calendar's rows mirror the window: one row per kept UID, holding its last event. |
| CalendarSync.ResyncRow | src/routes/api/calendar/sync/+server.js:70-108 | A row after a second identical full sync is the row after the first. |
| CalendarSync.ResyncChangesNothing | src/routes/api/calendar/sync/+server.js:70-108 | Re-syncing the same window after a full sync leaves the table unchanged. |
| CalendarSync.WindowOne | src/routes/api/calendar/sync/+server.js:61-63 | A single event is kept exactly when it is in the window. |
| CalendarSync.StepAgrees | src/lib/server/ical-parser.js:20-65 | One parser step under two generated UID texts keeps the two machines in the same state, with the same events in the window, unless it emits a UID-less record into the window. |
| CalendarSync.WindowNamedPrefix | src/lib/server/ical-parser.js:19-66 | If every record a feed emits into the window has a UID of its own, the same holds for each prefix of the feed. |
| CalendarSync.RunWindowIgnoresEntropy | src/lib/server/ical-parser.js:19-66 | When every record emitted into the window has its own UID, two runs under different generated UID texts keep the same events in the window. Records outside the window may lack a UID. |
| CalendarSync.WindowIgnoresEntropy | src/routes/api/calendar/sync/+server.js:52-63 | Such a feed gives the same window of events on every parse. |
| CalendarSync.FeedResyncChangesNothing | src/routes/api/calendar/sync/+server.js:52-108 | Parsing an unchanged feed a second time, at the same moment and with fresh generated UID text, and syncing it again in full leaves the table unchanged, provided every event in the window has a UID of its own. |
| CalendarSync.Successes | src/routes/api/calendar/sync/+server.js:67-91 | The number of successful upserts is at most the number of upserts. |
| CalendarSync.CalendarStore.Upsert | src/routes/api/calendar/sync/+server.js:71-84 | Inserts or overwrites the row under `(calendar_id, event_id)` unless the database reports an error. Nothing else changes. |
| CalendarSync.CalendarStore.Prune | src/routes/api/calendar/sync/+server.js:95-108 | Deletes the stale rows of the calendar, or nothing when the listing has no data. |
| CalendarSync.CalendarStore.TouchLastSynced | src/routes/api/calendar/sync/+server.js:111-114 | Sets `last_synced` of that calendar only. |
| CalendarSync.SyncRunsIff | src/routes/api/calendar/sync/+server.js:14-52 | The sync runs exactly when every guard passes. |
| CalendarSync.RefusalStatus | src/routes/api/calendar/sync/+server.js:14-48 | Every early answer is an error with status 400, 401, 404 or 500. |
| CalendarSync.UpsertStep | src/routes/api/calendar/sync/+server.js:70-91 | One more iteration extends the table and the success count of the earlier ones. |
| CalendarSync.UpsertAll | src/routes/api/calendar/sync/+server.js:67-91 | The loop leaves `synced + errors == total`, with `synced` the number of accepted upserts, and the table with the upserts applied in feed order. |
| CalendarSync.SyncFeed | src/routes/api/calendar/sync/+server.js:55-121 | Window, upserts, prune and stamp give the response counts, the reconciled table and the stamped calendar. |
| CalendarSync.SyncText | src/routes/api/calendar/sync/+server.js:52-121 | The parsed events are the parser's events for the feed text, and the sync of their window follows. |
| CalendarSync.SyncCalendar | src/routes/api/calendar/sync/+server.js:14-124 | A refused request gets its error and changes nothing. Otherwise the feed is parsed, the counts satisfy `synced + errors == total`, the rows are reconciled with the window, and `last_synced` is set even when upserts failed. |

## Left out

- The URL check, the network fetch and the HTTP status handling of `fetchAndParseICal` (`src/lib/server/ical-parser.js:176-200`) are I/O. They are the `fetch` parameter, which gives the feed text or the message it threw.
- The `new Date(text)` fallback of `parseICalDate` is implementation-defined date-string parsing. It is the parameter `Env.fallback`.
- `Date.now()` and `Math.random()` in the default UID are a clock and randomness. They are the parameter `Env.entropy`. The model states that two runs with different generated text give different UIDs, but not that the generated texts of two runs, or of two events in one run, differ.
- Time zones:
  - local time is UTC shifted by a fixed offset, so daylight-saving changes are not modelled;
  - the `setDate` and `setHours` steps of `addDuration`, and the 30- and 90-day window bounds, are exact multiples of 24 hours.
- ICalTime.Instant: times are unbounded integers. JavaScript time values are doubles clipped to ±8.64e15 ms, so an out-of-range date, which is Invalid in JavaScript, is valid here.
- JsText.ToUpper upper-cases only the ASCII letters. JavaScript also upper-cases other letters, some of them into two characters.
- Strings are sequences of Unicode characters, while JavaScript strings are UTF-16 code units. Lengths and positions differ only for characters outside the Basic Multilingual Plane.
- Authentication is the `signedIn` field of the request: `supabase.auth.getUser` and the `Bearer ` prefix stripping are an external call.
- The request body is parsed from JSON, the responses are built as JSON, and the Supabase query builder is used; these are I/O. A `calendarId` that is neither a number nor absent (a string, say) is not modelled.
- Event rows are identified by their `(calendar_id, event_id)` key rather than by the `id` column the delete uses.
- Start and end times are stored as milliseconds rather than as `toISOString()` text.
- CalendarSync.CalendarStore.Prune does not model the default row limit of the Supabase select: rows of the calendar beyond that limit are neither listed nor deleted in the source.
- CalendarSync.CalendarStore.TouchLastSynced always succeeds. The source ignores the update's error, so a failed stamp is not modelled.
- CalendarSync.ResyncChangesNothing holds only for an unchanged window of events. An event in the window without a UID of its own gets a new `unknown_` UID on each parse, so re-syncing its feed replaces its row with a new one.
- CalendarSync.FeedResyncChangesNothing requires every event in the window to have a UID of its own. It is re-synced at the same moment; a later moment moves the window.
- ICalLines.NormalizeNewlines states in its own contract only that no CR is left. How each line end maps is stated by `ICalLines.NormalizeHead`, `ICalLines.CrFirst` and `ICalLines.PlainFirst`.
- `await request.json()` (`src/routes/api/calendar/sync/+server.js:29`) runs outside the `try`, so a body that is not JSON makes the handler throw instead of answering with an error. The model starts from the parsed body and does not model that throw.
- CalendarSync.SyncCalendar uses one clock reading `now` for the window and for `last_synced`. The source reads the clock twice.
- Concurrent syncs of the same calendar are not modelled; the model is one sequential run.
