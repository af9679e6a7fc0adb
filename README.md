# FrontlineSMS date picker and statistics report, modelled in Dafny

This project models two parts of FrontlineSMS core.

**The Ethiopic date picker** (`DateSelecter`). It is a dialog with these parts:
- a cursor date `current`;
- the displayed month and year, `curMonth` and `curYear`;
- a date to highlight, kept as three integers;
- six week panels of seven day buttons, one button per ISO weekday (Monday first).

Opening the dialog seeds the cursor and the highlight. They come from the text field's date when that parses, and from today otherwise. Paging moves the cursor one month forward or back with Joda's `plusMonths`/`minusMonths`. Laying out a month resets the cursor to day 1 and fills the six panels one day at a time. Each day goes into the button of its weekday. A panel stops filling right after slot 7, or when the month ends. The cursor then falls back from day 1 of the next month to day 1 of the displayed month. Clicking a day builds the date (`curYear`, `curMonth`, day) and prints it into the text field.

The calendar arithmetic the picker relies on is modelled in `EthiopicCalendar`. It follows Joda-Time's `EthiopicChronology`:
- twelve 30-day months, then a thirteenth month of 5 days, or 6 in a leap year (when `year % 4 == 3`);
- ISO weekdays, 1 = Monday to 7 = Sunday, computed from an absolute day count so that 1 Mäskäräm 2016 falls on a Tuesday.

**The statistics report** (`StatisticsManager`). It is an insertion-ordered map from keys to values, held as a list of entries with distinct keys. It has two renderings:
- the SMS text: `Σ`, a space, then one segment per entry, joined by commas. A composite key (`i18nKey:id`) adds up to two characters of its id and a colon before the value.
- the e-mail text: one `key = value` line per entry.

`isCompositeKey` and `splitStatsMapKey` are modelled together with the `java.lang.String` operations they use (`indexOf`, and `split` with its removal of trailing empty parts).

Files:
- `wrappers.dfy`: the `Option` and `Result` types.
- `ethiopic_calendar.dfy`: the calendar.
- `date_selecter.dfy`: the dialog class and the grid layout.
- `java_strings.dfy`: `indexOf`, `split` and joining.
- `statistics_manager.dfy`: the report class.

The grid is specified in closed form. The button in row `i`, slot `j + 1` shows day `7*i + j + 2 - first`, where `first` is the weekday slot of day 1, when that day lies in the month; otherwise the button is blank. `FillRow` and `ShowMonth` are proved to produce exactly this grid. The lemmas beside them prove coverage, weekday placement and highlighting for it.

## Model

| member | source | states |
|---|---|---|
| EthiopicCalendar.Weekday | src/main/java/net/frontlinesms/ui/handler/core/DateSelecter.java:204 | Joda's `getDayOfWeek()` lies in 1..7. |
| EthiopicCalendar.WeekdayCalibration | src/main/java/net/frontlinesms/ui/handler/core/DateSelecter.java:204 | 1 Mäskäräm 2016 falls on a Tuesday (weekday 2). |
| EthiopicCalendar.WeekdayInMonth | src/main/java/net/frontlinesms/ui/handler/core/DateSelecter.java:204 | Within a month, day `d` falls `d - 1` weekdays after day 1, cyclically. |
| EthiopicCalendar.NextDay | src/main/java/net/frontlinesms/ui/handler/core/DateSelecter.java:212 | `plusDays(1)` is the valid date exactly one absolute day later, across month and year ends. |
| EthiopicCalendar.NextDayWeekday | src/main/java/net/frontlinesms/ui/handler/core/DateSelecter.java:204-212 | The next day's weekday is the following one, Sunday (7) wrapping to Monday (1). |
| EthiopicCalendar.FirstOfNextMonth | src/main/java/net/frontlinesms/ui/handler/core/DateSelecter.java:203-212 | The date the fill loop stops on is day 1 of the month whose index is one more. |
| EthiopicCalendar.PlusOneMonth | src/main/java/net/frontlinesms/ui/handler/core/DateSelecter.java:139 | `plusMonths(1)` gives the next month index, with the day clamped to that month's length. |
| EthiopicCalendar.MinusOneMonth | src/main/java/net/frontlinesms/ui/handler/core/DateSelecter.java:151 | `minusMonths(1)` gives the previous month index, with the day clamped to that month's length. |
| EthiopicCalendar.YearBoundaryWraps | src/main/java/net/frontlinesms/ui/handler/core/DateSelecter.java:139-153 | Month 13 pages forward to month 1 of year + 1; month 1 pages back to month 13 of year - 1. |
| EthiopicCalendar.NextThenPreviousMonth | src/main/java/net/frontlinesms/ui/handler/core/DateSelecter.java:138-155 | From day 1 of a month, next month then previous month gives back the same date. |
| EthiopicCalendar.PreviousThenNextMonth | src/main/java/net/frontlinesms/ui/handler/core/DateSelecter.java:138-155 | From day 1 of a month, previous month then next month gives back the same date. |
| EthiopicCalendar.PreviousOfNextMonth | src/main/java/net/frontlinesms/ui/handler/core/DateSelecter.java:172 | The rollback from day 1 of the next month lands on day 1 of the displayed month. |
| DateSelection.CellOf | src/main/java/net/frontlinesms/ui/handler/core/DateSelecter.java:205 | Every day of the month has a button in the 6 x 7 grid whose slot holds that day. |
| DateSelection.SlotIsWeekday | src/main/java/net/frontlinesms/ui/handler/core/DateSelecter.java:204-205 | The day in slot `j + 1` has weekday `j + 1`, so it sits at index `dayOfWeek - 1`. |
| DateSelection.EnabledCellsAreMonthDays | src/main/java/net/frontlinesms/ui/handler/core/DateSelecter.java:199-207 | An enabled button shows a day of the displayed month at its weekday's index; every other button is blank. |
| DateSelection.EachDayShownOnce | src/main/java/net/frontlinesms/ui/handler/core/DateSelecter.java:169-171 | Every day 1..length is shown by exactly one button of the grid. |
| DateSelection.RowIsConsecutive | src/main/java/net/frontlinesms/ui/handler/core/DateSelecter.java:203-212 | Between two enabled buttons of a row, every button is enabled and the day grows by one per slot. |
| DateSelection.RowBreaksAfterSlot7 | src/main/java/net/frontlinesms/ui/handler/core/DateSelecter.java:213-216 | The day after the one in slot 7 opens the next row in slot 1. |
| DateSelection.HighlightIffSameDate | src/main/java/net/frontlinesms/ui/handler/core/DateSelecter.java:209-210 | A button is highlighted iff its (day, month, year) equals the highlight date. |
| DateSelection.OneHighlightAtMost | src/main/java/net/frontlinesms/ui/handler/core/DateSelecter.java:209-210 | At most one button of the grid is highlighted; when the highlight date is in the displayed month, its button is. |
| DateSelection.SixRowsSuffice | src/main/java/net/frontlinesms/ui/handler/core/DateSelecter.java:169-172 | After six rows the cursor has reached day 1 of the next month, so no day is left out. |
| DateSelection.FillOneDay | src/main/java/net/frontlinesms/ui/handler/core/DateSelecter.java:203-216 | One loop pass writes the cursor's day into slot `Weekday` and keeps the row-fill invariant, or reaches the row's end state after slot 7 or the month's end. |
| DateSelection.RowStartsBlank | src/main/java/net/frontlinesms/ui/handler/core/DateSelecter.java:200-203 | A row starts with all seven buttons blank, the cursor on the row's first day or past the month. |
| DateSelection.RowComplete | src/main/java/net/frontlinesms/ui/handler/core/DateSelecter.java:213-217 | When the fill stops, the row equals its closed form and the cursor is where the next row starts. |
| DateSelection.DateSelecter.constructor | src/main/java/net/frontlinesms/ui/handler/core/DateSelecter.java:81-84 | A new dialog is bound to the text field's contents and owns six fresh panels of seven buttons. |
| DateSelection.DateSelecter.ShowSelecter | src/main/java/net/frontlinesms/ui/handler/core/DateSelecter.java:90-95 | Opening shows the month of the seed date (parsed field or today), with that date highlighted. |
| DateSelection.DateSelecter.Init | src/main/java/net/frontlinesms/ui/handler/core/DateSelecter.java:102-123 | A non-empty field that parses gives the cursor and highlight that date. Otherwise the highlight is today and the cursor is day 1 of today's month. `curMonth`/`curYear` follow the cursor. |
| DateSelection.DateSelecter.NextMonth | src/main/java/net/frontlinesms/ui/handler/core/DateSelecter.java:138-143 | The month index grows by one; the new month is laid out with the cursor on its day 1. |
| DateSelection.DateSelecter.PreviousMonth | src/main/java/net/frontlinesms/ui/handler/core/DateSelecter.java:150-155 | The month index shrinks by one; the new month is laid out with the cursor on its day 1. |
| DateSelection.DateSelecter.ShowMonth | src/main/java/net/frontlinesms/ui/handler/core/DateSelecter.java:162-174 | All six panels show the displayed month in closed form. The label is `ethiopicMonths[curMonth - 1]` with `curYear`, an index always in 0..12. The cursor ends on day 1 of the displayed month. |
| DateSelection.DateSelecter.SelectionMade | src/main/java/net/frontlinesms/ui/handler/core/DateSelecter.java:176-179 | A day of the displayed month yields the date (`curYear`, `curMonth`, day), which is printed into the field. Any other day is refused and the field is unchanged. |
| DateSelection.DateSelecter.SetDayToHighlight | src/main/java/net/frontlinesms/ui/handler/core/DateSelecter.java:186-190 | The highlight date becomes the cursor. |
| DateSelection.DateSelecter.FillRow | src/main/java/net/frontlinesms/ui/handler/core/DateSelecter.java:197-218 | The panel ends equal to row `r` of the month's closed form, and the cursor moves to the start of row `r + 1`. |
| DateSelection.DateSelecter.CleanButtons | src/main/java/net/frontlinesms/ui/handler/core/DateSelecter.java:220-226 | Every button of the panel becomes blank: empty text, disabled, normal colour. |
| DateSelection.DateSelecter.IsDayToHighlight | src/main/java/net/frontlinesms/ui/handler/core/DateSelecter.java:227-231 | Holds iff the cursor equals the highlight date. |
| JavaStrings.IndexOf | src/main/java/net/frontlinesms/data/StatisticsManager.java:326 | The result is -1 iff the character is absent; otherwise it is its first position. |
| JavaStrings.SplitAll | src/main/java/net/frontlinesms/data/StatisticsManager.java:334 | Cutting at every separator yields at least one part. |
| JavaStrings.SplitAllPartsFree | src/main/java/net/frontlinesms/data/StatisticsManager.java:334 | No part of a split holds the separator. |
| JavaStrings.JoinSplitAll | src/main/java/net/frontlinesms/data/StatisticsManager.java:334 | Joining the parts of a split with the separator rebuilds the string. |
| JavaStrings.SplitAllJoin | src/main/java/net/frontlinesms/data/StatisticsManager.java:334 | Splitting a join of separator-free parts gives back the parts. |
| JavaStrings.StripTrailingEmpty | src/main/java/net/frontlinesms/data/StatisticsManager.java:334 | Keeps a prefix whose last part is non-empty; every dropped part is empty. |
| JavaStrings.Split | src/main/java/net/frontlinesms/data/StatisticsManager.java:334 | `String.split`: a string without the separator comes back whole. Otherwise the result is the full cut minus its trailing empty parts. |
| JavaStrings.JoinSplit | src/main/java/net/frontlinesms/data/StatisticsManager.java:334 | A string not ending in the separator is rebuilt by joining its `split`. |
| Statistics.KeyIndex | src/main/java/net/frontlinesms/data/StatisticsManager.java:64 | Finds an entry with the key, or -1 exactly when no entry has it. |
| Statistics.UpdatedLookup | src/main/java/net/frontlinesms/data/StatisticsManager.java:151 | After a `put`, the key maps to the new value and other keys keep theirs. Keys stay distinct and existing entries keep their order. |
| Statistics.IsCompositeKey | src/main/java/net/frontlinesms/data/StatisticsManager.java:325-327 | A key is composite iff it contains `':'`. |
| Statistics.SplitStatsMapKey | src/main/java/net/frontlinesms/data/StatisticsManager.java:330-336 | A plain key gives `[key]`. A composite key gives its `':'`-separated parts without the trailing empty ones; no part holds `':'`. |
| Statistics.SplitStatsMapKeyRoundTrip | src/main/java/net/frontlinesms/data/StatisticsManager.java:330-336 | A key not ending in `':'` is rebuilt by joining its parts. A composite one has at least two parts, the first being the text before the first `':'`. |
| Statistics.SplitStatsMapKeyExamples | src/main/java/net/frontlinesms/data/StatisticsManager.java:334 | `":"` splits into nothing, `"a:b:"` into `["a", "b"]` and `":a"` into `["", "a"]`. |
| Statistics.ShortKey | src/main/java/net/frontlinesms/data/StatisticsManager.java:285-286 | The short key is the at most two characters right after the first `':'`; it is shorter only at the key's end. |
| Statistics.SmsSegmentShape | src/main/java/net/frontlinesms/data/StatisticsManager.java:283-290 | A segment ends with the value. It equals the value iff the key is plain. Otherwise the short key and `':'` precede the value, at most three characters. |
| Statistics.SmsBuilderStep | src/main/java/net/frontlinesms/data/StatisticsManager.java:279-290 | Appending `','` and the next segment extends the builder by one entry. |
| Statistics.SmsTextSegments | src/main/java/net/frontlinesms/data/StatisticsManager.java:293-294 | The SMS text starts with `Σ` and a space. With no comma inside a segment, cutting the rest at commas gives one segment per entry, in map order. |
| Statistics.EmailStringAppend | src/main/java/net/frontlinesms/data/StatisticsManager.java:302-310 | The e-mail text of two lists in sequence is the concatenation of their texts. |
| Statistics.EmailStringIsJoin | src/main/java/net/frontlinesms/data/StatisticsManager.java:302-310 | The e-mail text is the `key = value` lines joined by line breaks, plus a final line break. |
| Statistics.EmailStringLines | src/main/java/net/frontlinesms/data/StatisticsManager.java:302-310 | Without line breaks in keys and values, cutting the e-mail text at line breaks gives one `key = value` line per entry, then an empty rest. |
| Statistics.StatisticsManager.constructor | src/main/java/net/frontlinesms/data/StatisticsManager.java:87-89 | A new manager holds no statistics. |
| Statistics.StatisticsManager.Put | src/main/java/net/frontlinesms/data/StatisticsManager.java:151 | `LinkedHashMap.put`: a new key is appended; an existing key keeps its place and takes the new value. |
| Statistics.StatisticsManager.GetDataAsSmsString | src/main/java/net/frontlinesms/data/StatisticsManager.java:275-295 | An empty map fails with `StringIndexOutOfBounds(1, 0)` from `substring(1)`. Otherwise the result is `Σ`, a space, and the segments in map order joined by `','`, with no leading comma. |
| Statistics.StatisticsManager.GetDataAsEmailString | src/main/java/net/frontlinesms/data/StatisticsManager.java:302-310 | The result is the e-mail text of the map, `""` for an empty map. |
| Statistics.StatisticsManager.ToString | src/main/java/net/frontlinesms/data/StatisticsManager.java:312-314 | `toString` equals the e-mail text. |

## Where the model follows the code

- The row fill compares Joda's ISO weekday with `Calendar.SATURDAY`, which is 7, so a row ends after ISO slot 7 (Sunday). With Monday-first buttons this is the last slot of the panel. The model uses weekday 7 as the row end.
- The grid is laid out by moving the dialog's own cursor field `current`, not a local copy. After six rows it always stands on day 1 of the next month (`SixRowsSuffice`). The month check at line 172 then pages it back to day 1 of the displayed month (`PreviousOfNextMonth`). The model keeps this field update.
- The short key of a composite key has 0 to 2 characters. It is empty when the `':'` is the key's last character, because `substring` is then taken at the key's end.

## Left out

- Thinlet UI calls are left out: finding components, setting actions, adding and removing the dialog, `invokeAction`, and closing. Each week panel is modelled as an array of `Cell` values, and the label as its two parts.
- Logging is left out.
- `DateTime.now` becomes the `today` parameter. The date formatter becomes two function parameters: `parse`, which gives a date or nothing for an unparsable text, and `format`.
- Time of day is left out: `init` builds day 1 at 00:00 and `showMonth` at 02:02. Dates are (year, month, day) only.
- Joda's year range limits are left out; years are unbounded integers.
- DateSelection.DateSelecter.Init: the parsed date is taken to be an Ethiopic date; the formatter's own chronology is not modelled.
- DateSelection.DateSelecter.ShowMonth: the label is the pair (month name, `curYear`), not the text `name + " " + curYear`.
- DateSelection.DateSelecter.SelectionMade: takes the day as a number. `Integer.parseInt` of the button text is left out. An invalid day, which Joda rejects with an exception, becomes `None`.
- DateSelection.DateSelecter.constructor: the six panels are allocated once per dialog object. The source parses a fresh dialog in every `showSelecter`.
- Statistics collection (`collectData` and every `collect*` method) is left out: it reads DAOs, property singletons, system properties and annotations through reflection. The model starts from the collected list, filled through `Put`.
- `getReceivedMessages` and `getSentMessages` are left out: they are map lookups followed by `Integer.parseInt`.
- `getStatisticsList` is left out: it is a getter that returns the map itself.
- The DAO setters are left out.
- Statistics.StatisticsManager.GetDataAsSmsString: values are non-null strings. A `LinkedHashMap` accepts `null` values, and `collectUserId` stores the user id unchecked, so a missing id would be written as the text `null` in both renderings; `Statistics.StatisticsManager.GetDataAsEmailString` and `Statistics.EmailString` do not model this either.
- Statistics.ShortKey: counts Unicode scalar values, while Java's `substring` counts UTF-16 code units. For a key whose id starts with a character outside the Basic Multilingual Plane, Java's two units are one surrogate pair, where the model takes two characters.
