# trackmyperiod bot core, modelled in Dafny

This project models the logic core of the trackmyperiod Telegram bot. A
primary user logs the start and end of each period. They can log
symptoms while a period is open, and they get a forecast of the next
period and hourly reminders. A partner pairs with the primary by a
one-time six-digit code. The partner sees the primary's status and gets
copies of the primary's events.

How the model represents the system:

- **The three tables.** `users`, `cycles` and `symptoms` are the fields
  of the class `Bot.Store`, along with the next `AUTOINCREMENT` id of
  `cycles`.
  - `users` is a map from the Telegram id to the row.
  - `cycles` and `symptoms` are sequences in table order.
- **The handlers.** Each handler that writes is a method of the class.
  Its `ensures` clauses state the whole new state and the messages
  sent. Every one of them keeps `Store.Valid`:
  - a user has at most one open cycle;
  - every cycle id in use is below the next one handed out.
- **Read-only handlers.** They are functions or methods on the tables,
  in module `Commands`: the role gates, the menus, `/status` and
  `/history`.
- **Messages.** A message is a `Notice`: the recipient and the catalog
  lookups `t(key, lang)` it is made of, in order.
- **The catalog lookup.** `t` itself is module `Locales`, with the
  catalog as a parameter.
- **Dates.** Every stored date is a day number (days since 1970-01-01).
  Module `Civil` gives the Gregorian calendar, the weekday (`getDay()`),
  `setMonth` stepping and the `YYYY-MM-DD` strings. Module `Jalali`
  gives the Solar Hijri ("shamsi") month rule of the date picker, and
  `toShamsi`/`toGregorian`.
- **The conversion library.** It is a parameter: a `Jalali.Converter`
  pair of functions. Properties that need it assume `Jalali.Lawful`.
  It says that the two directions are mutual inverses and that the days
  of a Jalali month are consecutive days. It also says that the library
  has exactly the month lengths of the picker's own leap-year rule.
- **Today, the current hour and the random code.** Today's date and the
  current hour are parameters. The random pairing code is a
  nondeterministic choice in 100000..999999.
- **The date picker.** `generateCalendar` is module `DatePicker`. It
  builds the month grid as rows of buttons, each with what it shows and
  its call-back data. Module `Callbacks` writes and decodes the
  underscore call-back grammar.
- **The forecast.** The statistics of `/history` are module
  `Prediction`.
- **The reminder run.** It is module `Scheduler`.
- **A missing user row.** A handler that reads a column of a user row
  without checking that the row exists fails with a `TypeError` when
  the row is missing. The model shows that as no change and no message.
  A function returns `None` for it.

Where the code behaves in a way worth spelling out, the model follows
the code:

- `handleSeeding` deletes only the user's cycles. Neither the code nor
  the schema cascades, so their symptom rows stay, pointing at ids no
  longer in `cycles`.
- A handler given a user without a row crashes; it does not answer with
  a not-found message.
- The reminder run predicts from the gap between the two latest closed
  starts. It does not re-run the full forecast. The two agree when
  exactly two cycles are closed (`Scheduler.ReminderMatchesHistory`).
- `/status` reports the primary's cycle with the latest start, open or
  not. That is not always the open one (`Commands.StatusFollowsLatestStart`).
- "Next" from the 31st of a month runs over as `setMonth` does, landing
  in the month after next (`DatePicker.NextFromJanuary31`).
- A Jalali grid steps by a Gregorian month.

## Model

| member | source | states |
|---|---|---|
| Bot.PairingCodeShape | src/handlers/user_handler.js:151 | a code drawn from 100000..999999 is a six-digit string that reads back as the number |
| Bot.Store.constructor | src/services/database.js:17-55 | the tables start empty, with the invariant |
| Bot.Store.Pairing | src/handlers/user_handler.js:158-175 | unknown code: no row changes and the joiner is told in English and Persian; known code: some primary holding it is paired with the joiner, both are told in the primary's language, and only the users table changes |
| Bot.Store.Start | src/handlers/user_handler.js:29-58 | with a code, exactly the pairing outcome; without one, a known user is welcomed back in their language with nothing changed, and an unknown one gets a default row and the English welcome |
| Bot.Store.LanguageChoice | src/handlers/user_handler.js:60-87 | only the language field changes, to the last `_` field of the data; a no-op update for a user without a row; the confirmation if a role is set, the role prompt otherwise, in the new language |
| Bot.Store.RoleChoice | src/handlers/user_handler.js:89-114 | exactly `set_role_primary` gives the primary role, any other data the partner role; only the role changes; the calendar prompt or the partner info follows; without a row nothing happens |
| Bot.Store.CalendarChoice | src/handlers/user_handler.js:116-140 | only the calendar field changes, to the last `_` field; settings confirmation if a role is set, setup completion otherwise, each with the calendar's name |
| Bot.Store.PartnerCommand | src/handlers/user_handler.js:142-156 | a non-primary gets the refusal and nothing changes; a primary's code is overwritten with a six-digit code in 100000..999999 and they get the invite; without a row nothing happens |
| Bot.Store.ReminderChoice | src/handlers/user_handler.js:244-260 | only the reminder time changes: null for "off" or a missing part, the text after `set_reminder_` verbatim otherwise; the status line says on for a non-empty time |
| Bot.Store.LogStart | src/handlers/cycle_handler.js:297-312 | with an open cycle, nothing changes and the alert is sent; otherwise exactly one open cycle is appended with the next id, the user is told and the partner notified; the invariant holds after |
| Bot.Store.LogEnd | src/handlers/cycle_handler.js:314-329 | with no open cycle, nothing changes and the alert is sent; otherwise only the open cycle's end is set, the user is told and the partner notified |
| Bot.Store.LogSymptom | src/handlers/cycle_handler.js:272-294 | with no open cycle, the alert and no change; otherwise one symptom row under the open cycle's id for today, the toast and confirmation, the partner notified; a missing key inserts nothing |
| Bot.Store.LogSelection | src/handlers/cycle_handler.js:222-241 | "today" logs a start (for `start`) or an end (otherwise) on today's day number; any other method changes nothing and returns a picker grid for the chosen type in the user's calendar |
| Bot.Store.CalendarNav | src/handlers/cycle_handler.js:243-264 | the grid of the reference date stepped one month back for "prev" and forward otherwise, keeping type and calendar; nothing for a missing or malformed date part |
| Bot.Store.DateSelection | src/handlers/cycle_handler.js:266-270 | a picked day logs a start for type `start` and an end for any other type, on that date's day number |
| Bot.Store.Seed | src/handlers/cycle_handler.js:110-130 | a non-primary gets the refusal and nothing changes; a primary's cycles are replaced by the seeded rows, other users' rows stay in order, symptoms stay |
| Bot.Store.InsertSeeded | src/handlers/cycle_handler.js:119-128 | the loop appends one closed cycle per plan step, starting 28 days before today and moving back by each step's gap; ids run on from the next id |
| Schema.NewUser | src/handlers/user_handler.js:43 | a fresh row has no role, language `en`, calendar `gregorian` and no partner, code or reminder |
| Schema.LangOr | src/handlers/cycle_handler.js:35 | the user's language when the row exists, `en` otherwise |
| Schema.OpenIndex | src/handlers/cycle_handler.js:278 | the first open cycle of the user in table order, and None exactly when the user has none |
| Schema.OpenIsUnique | src/handlers/cycle_handler.js:322 | under the invariant, the open cycle found by any query is the user's only open one |
| Schema.OpenKeepsInvariant | src/handlers/cycle_handler.js:305-309 | appending an open cycle for a user with none open keeps at most one open cycle per user |
| Schema.CloseKeepsInvariant | src/handlers/cycle_handler.js:326 | setting an end date keeps the invariant |
| Schema.LatestIndex | src/handlers/cycle_handler.js:173 | a cycle of the user whose start is not before any other of theirs; None exactly when they have no cycle |
| Schema.SortDesc | src/handlers/cycle_handler.js:60 | `ORDER BY start_date DESC`: sorted latest first and a permutation of its input |
| Schema.SortDescSorted | src/handlers/cycle_handler.js:60 | a list already sorted comes back unchanged |
| Schema.Without | src/handlers/cycle_handler.js:118 | the delete keeps exactly the rows of other users: each kept row is from the table and not the user's, and each row of another user is kept |
| Schema.RowsOf | src/handlers/cycle_handler.js:118 | exactly the rows of one user, each from the table |
| Schema.WithoutKeepsRows | src/handlers/cycle_handler.js:118 | every other user's rows are the same rows in the same order after the delete |
| Schema.WithoutKeepsOpen | src/handlers/cycle_handler.js:118 | under the invariant, another user has an open cycle after the delete exactly when they had one before, and it is the same row |
| Schema.WithoutHasNone | src/handlers/cycle_handler.js:118 | after the delete the user has no closed cycle |
| Schema.WithoutKeepsInvariant | src/handlers/cycle_handler.js:118 | the delete keeps the invariant |
| Schema.ClosedPeriodsAppend | src/handlers/cycle_handler.js:60 | the closed cycles of two tables laid end to end are the two lists laid end to end |
| Schema.CloseAddsPeriod | src/handlers/cycle_handler.js:326 | closing the user's open cycle adds exactly one period, from its start to the end day, to the user's closed cycles |
| Schema.StartThenEnd | src/handlers/cycle_handler.js:309 | logging a start and then an end adds that one period at the end of the history |
| Schema.CloseLeavesOthers | src/handlers/cycle_handler.js:326 | closing one user's cycle leaves every other user's history as it was |
| Schema.WithoutLeavesOthers | src/handlers/cycle_handler.js:118 | deleting one user's cycles leaves every other user's history as it was |
| Schema.Seeded | src/handlers/cycle_handler.js:122-128 | one row per plan step, all of the user, all closed, with consecutive ids |
| Schema.SeedStep | src/handlers/cycle_handler.js:123-127 | one pass of the loop extends the rows by that step's cycle and moves the start back by its gap |
| Schema.SeededRows | src/handlers/cycle_handler.js:119-128 | the rows run from day -28 to -24, -56 to -53 and -85 to -81 relative to today |
| Schema.SeededPeriods | src/handlers/cycle_handler.js:119-128 | those rows are the periods of lengths 5, 4 and 5, in the order inserted |
| Schema.SeededHistory | src/handlers/cycle_handler.js:118-128 | after seeding the user's history is exactly the three seeded periods, latest first |
| Schema.SeedingLeavesOthers | src/handlers/cycle_handler.js:118 | seeding leaves every other user's history as it was |
| Schema.SeededForecast | src/handlers/cycle_handler.js:76-102 | the seeded history forecasts a 5-day period, a 29-day cycle and the next start tomorrow |
| Schema.PairLinks | src/handlers/user_handler.js:168-171 | the link is symmetric; the joiner becomes a partner with the primary's language; the primary keeps the primary role and loses the code |
| Schema.PairUpsert | src/handlers/user_handler.js:168-170 | a joiner without a row gets a fresh row with their name and the defaults; one with a row keeps its other fields |
| Schema.PairFrames | src/handlers/user_handler.js:168-171 | only the joiner's and the primary's rows change |
| Schema.PairConsumesCode | src/handlers/user_handler.js:163-171 | after pairing, the holders of any code are the holders before minus the two users |
| Schema.SecondJoinerRejected | src/handlers/user_handler.js:163-166 | a code that one primary alone held no longer resolves, so a second joiner hears it is invalid |
| Schema.NotifyPartner | src/handlers/cycle_handler.js:14-29 | exactly one message when the user has a partner, to the partner, in the partner's language, `en` without a row; none otherwise |
| Commands.Help | src/handlers/user_handler.js:10-27 | title, the section of the user's role and the footer, in the user's language (`en` without a row) |
| Commands.Track | src/handlers/cycle_handler.js:33-50 | the refusal exactly for non-primaries; for primaries the title with the two method buttons |
| Commands.MethodChoice | src/handlers/cycle_handler.js:204-220 | no answer exactly when the user has no row; otherwise the `trackStartOrEnd` prompt in the user's language and two buttons that decode to start and to end, each with the data's last `_` field as the method |
| Callbacks.LastField | src/handlers/cycle_handler.js:207 | `split('_').pop()` never holds an underscore |
| Commands.TrackFlow | src/handlers/cycle_handler.js:207-223 | the two `/track` buttons lead to start/end buttons that decode to that type and the chosen method |
| Commands.SymptomButtons | src/handlers/cycle_handler.js:145-154 | one button per symptom key, in order, whose data is `log_symptom_` and the key |
| Commands.SymptomsMenu | src/handlers/cycle_handler.js:132-162 | the refusal exactly for non-primaries; without an open cycle the need-active message; otherwise the title and the six buttons |
| Commands.SymptomButtonKeys | src/handlers/cycle_handler.js:151-154 | each symptom button's data, read back with `split('log_symptom_')[1]` as `handleSymptomLogging` does, gives its key |
| Commands.RemindersMenu | src/handlers/user_handler.js:222-242 | no answer exactly for a user without a row; the refusal for other non-primaries; for primaries the title, the on/off status and the five buttons |
| Commands.ReminderSetting | src/handlers/user_handler.js:248-250 | "off" stores null; anything else, a missing part included, stores the text after the marker |
| Commands.ReminderButtonsSet | src/handlers/user_handler.js:236-250 | the four time buttons set 08:00, 09:00, 12:00 and 18:00; the last turns reminders off |
| Commands.SymptomsOn | src/handlers/cycle_handler.js:191 | a name is listed exactly when a symptom row of that cycle and day holds it |
| Commands.Status | src/handlers/cycle_handler.js:164-201 | the refusal exactly for a user who is not a linked partner; no data exactly when the primary has no cycle; otherwise the day counted from 1 on the start day, on period exactly when that cycle is open, and today's symptoms |
| Commands.StatusNotice | src/handlers/cycle_handler.js:168-198 | the message `/status` sends: the on-period or in-cycle line, then the symptoms line or the no-symptoms line |
| Commands.StatusFirstDay | src/handlers/cycle_handler.js:181-185 | a period that started today is day 1 and on period |
| Commands.StatusFollowsLatestStart | src/handlers/cycle_handler.js:173 | an open cycle older than a closed one is reported as "in cycle" |
| Commands.HistoryCommand | src/handlers/cycle_handler.js:52-108 | the refusal exactly for non-primaries; otherwise the forecast view of the user's closed cycles, latest first |
| Prediction.RoundDiv | src/handlers/cycle_handler.js:91-92 | `Math.round(p / q)`: the nearest integer, halves rounding up |
| Prediction.GapsTelescope | src/handlers/cycle_handler.js:85-88 | the sum of the gaps between starts is the latest start minus the first |
| Prediction.Averages | src/handlers/cycle_handler.js:77-92 | the loop's rounded means are the mean period length and the span of starts over the number of gaps |
| Prediction.History | src/handlers/cycle_handler.js:62-105 | no data, need-one-more, or the forecast with the five latest listed, all closed cycles counted, and the prediction being the latest start plus the mean cycle |
| Prediction.ViewKinds | src/handlers/cycle_handler.js:62-104 | the kind depends only on whether 0, 1 or 2 or more cycles are closed; at most the five latest are listed, latest first |
| Prediction.ForecastAfterLatest | src/handlers/cycle_handler.js:92-96 | with cycles sorted latest first the mean cycle is not negative and the prediction is not before any start |
| Prediction.SumLengthsReverse | src/handlers/cycle_handler.js:79-84 | the reversal does not change the total period length |
| Prediction.TwoCycleExample | src/handlers/cycle_handler.js:76-96 | 1-5 January and 29 January - 2 February 2024 forecast 5 days, 28 days and 26 February 2024 |
| Prediction.ReminderPrediction | src/services/scheduler.js:17-22 | the predicted start is as far after the latest start as the latest is after the one before |
| Prediction.TwoCyclesAgree | src/services/scheduler.js:17-22 | with two closed cycles the history prediction equals the reminder's |
| Scheduler.DueUsers | src/services/scheduler.js:9-11 | exactly the primaries whose reminder time starts with the padded hour and ':' |
| Scheduler.Classify | src/services/scheduler.js:33-42 | the PMS reminder exactly for 3..5 days, "tomorrow" exactly for 1 day, nothing for 2 or under 1 or over 5 |
| Scheduler.UserReminder | src/services/scheduler.js:14-48 | nothing with fewer than two closed cycles; otherwise the class of the days until the prediction from the two latest, copied to the partner when one is set |
| Scheduler.CheckAndSendReminders | src/services/scheduler.js:7-51 | a reminder goes to exactly the due users whose classification gives one, and is that user's reminder |
| Scheduler.MenuTimesFire | src/services/scheduler.js:9-11 | each time of the `/reminders` menu is due at its own hour and at no other |
| Scheduler.ReminderMatchesHistory | src/services/scheduler.js:14-22 | with two closed cycles the reminder predicts the date `/history` shows |
| Scheduler.SeededNoReminder | src/services/scheduler.js:14-42 | the reminder run predicts a freshly seeded history to start today, so the primary gets no reminder that day |
| Jalali.JsRem | src/handlers/cycle_handler.js:340 | JavaScript's `%`: the remainder keeps the sign of the dividend |
| Jalali.MonthLength | src/handlers/cycle_handler.js:347-352 | months 1-6 have 31 days, 7-11 have 30, and 12 has 30 exactly in a leap year, 29 otherwise |
| Jalali.YearLength | src/handlers/cycle_handler.js:338-352 | the months make 366 days in a leap year and 365 otherwise |
| Jalali.LeapPeriodic | src/handlers/cycle_handler.js:338-341 | for non-negative years the leap rule repeats every 33 years |
| Jalali.NegativeYearsNotLeap | src/handlers/cycle_handler.js:340 | no negative year is leap, because the remainder is never positive |
| Jalali.ShamsiFields | src/utils/calendar.js:12-21 | the display string splits on '/' into the year and the two padded fields |
| Jalali.ParseFormatShamsi | src/utils/calendar.js:12-21 | parsing the display string gives back the Jalali date it shows |
| Jalali.ShamsiRoundTrip | src/utils/calendar.js:10-24 | `toGregorian(toShamsi(date))` is the date itself |
| Locales.Template | src/utils/locales.js:165-166 | the chosen language's non-empty template, else English's, else `MISSING_KEY: ` and the key; never empty |
| Locales.T | src/utils/locales.js:164-172 | the loop returns the template with each replacement applied in turn to the first occurrence of its placeholder |
| Locales.UnknownLanguage | src/utils/locales.js:165 | an unknown language reads the English table |
| Locales.EnglishFallback | src/utils/locales.js:166 | a key the language lacks or holds as "" gives the English template |
| Locales.MissingEverywhere | src/utils/locales.js:166 | a key no table holds gives `MISSING_KEY: ` and the key |
| Locales.ReplaceFirstAt | src/utils/locales.js:169 | only the first occurrence is replaced and nothing around it changes |
| Locales.ReplaceAbsent | src/utils/locales.js:169 | a template without the placeholder is left as it is |
| Locales.RenderUntouched | src/utils/locales.js:168-171 | a template holding none of the placeholders, and so one given no replacements, comes back unchanged |
| DatePicker.HeaderRow | src/handlers/cycle_handler.js:334-336 | seven weekday buttons, Saturday first for the Jalali grid, Sunday first otherwise |
| DatePicker.GregorianView | src/handlers/cycle_handler.js:373-383 | the offset is under 7 and the month has 28 to 31 day cells |
| DatePicker.ShamsiView | src/handlers/cycle_handler.js:345-363 | the offset is under 7 and the month has 29 to 31 day cells |
| DatePicker.DayCells | src/handlers/cycle_handler.js:382-384 | day i + 1 shows its number and selects its date for the log type |
| DatePicker.Pad | src/handlers/cycle_handler.js:390 | the fillers that complete the last week: under 7, and the filled count becomes a whole number of weeks |
| DatePicker.LayOutDays | src/handlers/cycle_handler.js:360-390 | every row has exactly 7 cells, and the rows hold the leading fillers, the day cells in order and the trailing fillers |
| DatePicker.GenerateCalendar | src/handlers/cycle_handler.js:332-399 | the title row, the weekday row, whole weeks of the month's view and the nav row |
| DatePicker.MonthKeyboard | src/handlers/cycle_handler.js:357-398 | the rows in that order around the laid-out body |
| DatePicker.GridPlacement | src/handlers/cycle_handler.js:360-390 | day d sits in week (offset + d - 1) / 7, column (offset + d - 1) mod 7 |
| DatePicker.DaysOnceInOrder | src/handlers/cycle_handler.js:381-390 | a cell shows day k exactly at position offset + k - 1, so every day appears once and in order |
| DatePicker.GregorianColumns | src/handlers/cycle_handler.js:375-381 | in the Gregorian grid each day stands in its weekday's column, Sunday first |
| DatePicker.ShamsiMonth | src/handlers/cycle_handler.js:345-355 | the Jalali grid has as many cells as its month has days, and offset (weekday of the Jalali 1st + 1) mod 7 |
| DatePicker.ShamsiColumns | src/handlers/cycle_handler.js:355-364 | in the Jalali grid each day stands in its weekday's column, Saturday first |
| DatePicker.GregorianCellSelects | src/handlers/cycle_handler.js:383-384 | a Gregorian day cell decodes to its type and a date that parses to that very day |
| DatePicker.ShamsiCellSelects | src/handlers/cycle_handler.js:362-364 | a Jalali day cell decodes to the Gregorian date whose Jalali date is the day it shows |
| DatePicker.NavTarget | src/handlers/cycle_handler.js:244-256 | a result's date is valid; type and preference are carried over and the date moved one month |
| DatePicker.NavStep | src/handlers/cycle_handler.js:244-256 | a nav button's data leads to its type, preference and the reference date moved by its direction's month offset |
| DatePicker.PrevButtonSteps | src/handlers/cycle_handler.js:395 | Prev moves the reference date one month back, keeping type and preference |
| DatePicker.NextButtonSteps | src/handlers/cycle_handler.js:396 | Next moves it one month forward, keeping type and preference |
| DatePicker.NextFromJanuary31 | src/handlers/cycle_handler.js:256 | Next from 31 January lands on 3 March, as `setMonth` runs over |
| Callbacks.MonthOffset | src/handlers/cycle_handler.js:255 | -1 exactly for "prev", 1 for anything else, a missing part included |
| Callbacks.SelectRoundTrip | src/handlers/cycle_handler.js:267 | a day cell's data decodes to its type and date string |
| Callbacks.LogSelectRoundTrip | src/handlers/cycle_handler.js:215-223 | a start/end button's data decodes to its type and method |
| Callbacks.NavRoundTrip | src/handlers/cycle_handler.js:244-248 | a nav button's data decodes to its type, preference, date and direction |
| Callbacks.LastFieldOf | src/handlers/cycle_handler.js:207 | `split('_').pop()` of `prefix_value` is the value |
| Callbacks.AfterMarkerOf | src/handlers/cycle_handler.js:275 | `split(marker)[1]` of the marker and a key without it is the key |
| Civil.DaysInMonth | src/handlers/cycle_handler.js:376 | 28 to 31 days, February 29 exactly in a Gregorian leap year |
| Civil.Weekday | src/handlers/cycle_handler.js:375 | `getDay()`: a value in 0..6 |
| Civil.NextIsNextDay | src/handlers/cycle_handler.js:84 | the calendar's next day has the next day number |
| Civil.WeekdayNext | src/handlers/cycle_handler.js:375 | the next day's weekday is the next weekday |
| Civil.EpochIsThursday | src/handlers/cycle_handler.js:375 | 1970-01-01 is day 0 and a Thursday |
| Civil.AddMonths | src/handlers/cycle_handler.js:256 | `setMonth(getMonth() + k)` gives a valid date |
| Civil.AddMonthsNormalises | src/handlers/cycle_handler.js:256 | the day lands d - 1 days after the target month's 1st, in that month exactly when it fits |
| Civil.ParseIso | src/handlers/cycle_handler.js:254 | a parsed date is valid and not before year 0 |
| Civil.ParseCellIso | src/handlers/cycle_handler.js:383 | a day cell's date string parses back to its date |
| Civil.ParseIsoDate | src/handlers/cycle_handler.js:393 | the nav date, `toISOString().split('T')[0]`, parses back and has the ISO 8601 extended `YYYY-MM-DD` shape |
| Civil.CellIsoIsIsoDate | src/handlers/cycle_handler.js:383-393 | for four-digit years the cell string equals the ISO date |
| Text.PadStart | src/utils/calendar.js:12 | `padStart`: the width or the string's own length, fill in front, the string at the end |
| Text.Pad2Digits | src/utils/calendar.js:12 | `String(x).padStart(2, '0')` of 0..99 is two digits reading back as x |
| Text.JsNumberPad2 | src/utils/calendar.js:12-21 | `Number` of the padded field recovers the value, whatever its sign |
| Text.JsNumberIntToString | src/utils/calendar.js:12-21 | `Number(String(x))` is x |
| Text.FindFrom | src/utils/locales.js:169 | `indexOf`: the first index at or after k where the pattern occurs, None when there is none |
| Text.SplitJoin | src/utils/calendar.js:21 | fields without the separator split back out of their join |

## Left out

- Telegram I/O is left out: sending, editing, answering call-backs and `getMe`. Each message is its recipient and its catalog keys. Texts, emoji, Markdown and the invite link are not modelled. Neither are the replacement values (names, dates, translated symptom names).
- `src/bot.js` is left out. It holds polling, command registration and the routing of data prefixes to handlers. The pairing code parsed from `/start` is a parameter of `Bot.Store.Start`.
- `src/services/database.js` is left out beyond the column lists that give the row types. SQLite failures other than the NOT NULL symptom key are not modelled.
- `handleSettings` and `handleSettingsChoice` (src/handlers/user_handler.js:177-220) are not part of this model. They only send menus.
- The "Settings saved!" toast of `handleReminderChoice` is left out.
- The hourly `setInterval` and the interleaving of concurrent handlers are left out. Each handler is one atomic step.
- JavaScript `Date` details are left out: time zones, milliseconds, and the local-versus-UTC mixing of `setDate`, `setHours` and `toISOString`. Day counts are exact differences of day numbers.
- shamsi-date-converter is not part of this model. It is the `Jalali.Converter` parameter, and the picker's and round trip's properties assume `Jalali.Lawful`.
- `Jalali.Lawful` assumes that the library's Jalali month lengths are those of `isLeapJalali` (src/handlers/cycle_handler.js:338-352). If they differ in Esfand, the grid either misses a day the library has or shows a day 30 that converts to the next 1 Farvardin, offering one date twice. `DatePicker.ShamsiMonth`, `DatePicker.ShamsiColumns`, `DatePicker.ShamsiCellSelects` and `Jalali.ShamsiRoundTrip` say nothing about that case.
- `Locales.T` is left out in part. `$` patterns in replacement values (`String.replace`) are not modelled. The replacements are a sequence in the iteration order of the object's keys.
- The catalog's contents (src/utils/locales.js:3-162) are left out. `Locales` takes the catalog as a parameter.
- `Schema.SortDesc` and `Schema.LatestIndex` fix one order among cycles with equal starts. SQL leaves that order open.
- `Bot.Store.DateSelection` and `Bot.Store.CalendarNav` ignore data whose date part is missing or not a `Y-MM-DD` date. The source would pass such a string on to SQL or `new Date`. The picker only writes well-formed dates.
- `DatePicker.NavStep`, `DatePicker.PrevButtonSteps` and `DatePicker.NextButtonSteps` are stated for years 0..9999. Outside that range `toISOString` writes a sign, which `Civil.ParseIso` does not read.
- `DatePicker.GregorianCellSelects` and `DatePicker.ShamsiCellSelects` are stated for dates not before year 0. Negative years have the same doubt.
- `Jalali.ParseShamsi` reads only an optional minus sign and decimal digits. The rest of `Number`'s grammar (blanks, exponents, hex) is left out.
- The role-change flow with confirmation, the cascade deletes and pairing-code expiry are not modelled. The code has none of them.
