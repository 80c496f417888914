# Attendance engine of the check-in bot

A Dafny model of the attendance engine inside `telegram_checkin_pro.py`, a
Telegram bot that records work shifts and breaks per person and per group chat.
The engine has these parts:

- two interval tables, `work_sessions` and `break_sessions`, plus the per-chat
  `settings` table and the `admin_logs` table;
- the writes the bot makes: start and end a shift or a break, insert the
  default settings, flip the weekly or monthly report flag, and reset a chat;
- the return-to-seat transition, which closes the open break and reports the
  day's leave figures;
- the time windows: a local calendar day, week or month at UTC+7, turned into
  an inclusive pair of UTC instants, and the overlap rule every interval query
  uses;
- the figures built from the selected intervals: the daily summary, the daily
  leaderboard and the rows of the period reports;
- the overtime watcher that reminds a person once after a break's limit;
- the small helpers: `minutes_between`, `fmt_minutes`, `to_str`/`parse_str`
  and `safe_filename`.

Modules, one file each:

- `Wrappers` holds `Option`.
- `Calendar` is the proleptic Gregorian calendar of Python's `date`. It gives
  ordinals, weekdays and the inverse of the ordinal.
- `TimeFormat` covers instants as whole seconds since 0001-01-01 00:00:00 UTC.
  It holds the `%Y-%m-%d %H:%M:%S` text with its parser and its order
  preservation, plus `minutes_between` and `fmt_minutes`.
- `Windows` holds the day, week and month windows and the overlap rule.
- `Rows` holds the rows of both tables, the `WHERE` clauses as predicates, and
  the UPDATE, DELETE and SELECT statements as functions and loops.
- `Sorting` is `list.sort(key=..., reverse=True)`.
- `Aggregation` holds `compute_daily_summary`, the leaderboard,
  `get_work_range_for_user`, `get_break_summary_for_user` and the report rows.
- `Store` is the `Database` class, whose methods update the tables in place.
- `Watcher` is `break_overtime_watcher` over a sequence of wake-ups.
- `Filenames` is `safe_filename`.

Rows store instants, not texts. The SQL compares the stored texts, and those
comparisons agree with comparisons of the instants because `to_str` preserves
order (`TimeFormat.ToStrOrder`, `Windows.SqlOverlapsIff`).

Three behaviours of the code that the model keeps:

- `start_work` and `start_break` always insert, without checking for an open
  row of the same key, and the closing UPDATE closes every open row of the key.
- A row that crosses local midnight is selected for both days and counts its
  whole length in each (`Aggregation.CrossingRowCountedTwice`).
- At line 622 the monthly report's end is taken from a `date` minus one second.
  That subtraction keeps the date, so the window runs through the whole first
  day of the next month. The model keeps this
  (`Windows.MonthWindowShape`, `Windows.MonthWindowDays`).

## Model

| member | source | states |
|---|---|---|
| TimeFormat.ToStr | telegram_checkin_pro.py:118-119 | the text of an instant is always 19 characters, fixed-width |
| TimeFormat.ParseStr | telegram_checkin_pro.py:121-127 | a parsed instant is always in the `datetime` range; wrong length, separators, non-digits or out-of-range fields give `None` |
| TimeFormat.ParseToStr | telegram_checkin_pro.py:118-127 | `parse_str(to_str(t)) == t` for every representable instant |
| TimeFormat.ToStrParse | telegram_checkin_pro.py:118-127 | any text `parse_str` accepts is the canonical `to_str` text of the instant it returns |
| TimeFormat.ToStrOrder | telegram_checkin_pro.py:348-349 | comparing the texts of two instants as SQLite compares TEXT agrees with comparing the instants, in both directions |
| TimeFormat.DateTimeOfInstantOf | telegram_checkin_pro.py:118-119 | splitting an instant back into date and clock fields inverts building it from them |
| TimeFormat.MinutesBetween | telegram_checkin_pro.py:137-140 | 0 when either argument is missing or `b < a`; otherwise the floor of `(b - a)/60`, as `r*60 <= b-a < (r+1)*60`; never negative |
| TimeFormat.SplitMinutes | telegram_checkin_pro.py:142-147 | the hours-and-minutes form is used exactly from 60 minutes up, with `h*60 + mm == m`, `mm < 60` and `h >= 1` |
| TimeFormat.FmtMinutes | telegram_checkin_pro.py:142-147 | the text always ends in "分钟"; from 60 minutes up it is the hours and minutes of `SplitMinutes` around "小时", below 60 the minutes alone |
| TimeFormat.FmtMinutesReadsBack | telegram_checkin_pro.py:142-147 | the numbers in the text read back as the minutes: hours times 60 plus minutes (fewer than 60) from 60 up, the number itself below |
| TimeFormat.NatToStringValue | telegram_checkin_pro.py:145-147 | the decimal text written into the message reads back as the number |
| Calendar.Weekday | telegram_checkin_pro.py:611 | `date.weekday()` is in 0..6 |
| Calendar.WeekdayStep | telegram_checkin_pro.py:611 | from each day to the next the weekday goes up by one, modulo 7 |
| Calendar.MondayAnchors | telegram_checkin_pro.py:611 | 0001-01-01 and 2024-01-01, both Mondays, have weekday 0, so with the step lemma weekday 0 is Monday on every day |
| Calendar.FromOrdinal | telegram_checkin_pro.py:134-135 | the date of a day number is a valid date with that ordinal |
| Calendar.FromOrdinalOfOrdinal | telegram_checkin_pro.py:134-135 | turning a date into its day number and back gives the same date |
| Calendar.OrdinalStrictMono | telegram_checkin_pro.py:611-622 | ordinals strictly follow calendar order |
| Windows.LocalDate | telegram_checkin_pro.py:134-135 | the local date of an instant is a valid date |
| Windows.DayWindowOfInstant | telegram_checkin_pro.py:340-344 | an instant lies in a day's window exactly when that day is its local date at UTC+7 |
| Windows.DayWindowsTile | telegram_checkin_pro.py:340-344 | consecutive day windows meet with no gap and no overlap; each is 86400 seconds minus one long |
| Windows.PeriodWindow | telegram_checkin_pro.py:606-628 | there is no window exactly for a period other than "daily", "weekly" and "monthly" |
| Windows.ReportDayIsDayWindow | telegram_checkin_pro.py:606-609 | the daily report window is the daily summary's window |
| Windows.WeekWindowShape | telegram_checkin_pro.py:610-614 | the weekly window starts at local midnight of the Monday on or before the base date and lasts 7 days minus one second, so it covers the base date |
| Windows.WeekStartsOnMonday | telegram_checkin_pro.py:611 | the date `base_date - timedelta(days=base_date.weekday())` on which the weekly window starts has weekday 0 |
| Windows.MonthWindowShape | telegram_checkin_pro.py:615-622 | the monthly window starts on the 1st; December rolls over to January of the next year; the window ends at 23:59:59 of the next month's first day, one day past the month's end |
| Windows.MonthWindowDays | telegram_checkin_pro.py:615-622 | a day's window is inside the monthly window exactly when that day is in the base month or is the next month's first day |
| Windows.SqlOverlapsIff | telegram_checkin_pro.py:348-349 | on stored texts the SQL clause `start <= end_utc AND (end IS NULL OR end >= start_utc)` selects exactly the rows the instant comparison selects |
| Windows.MidnightEndSelectedTwice | telegram_checkin_pro.py:348-349 | an interval that ends exactly at local midnight is selected for both neighbouring days |
| Rows.OpenCount | telegram_checkin_pro.py:200-201 | the number of open rows of a key is zero exactly when the key has no open row |
| Rows.NewestOpen | telegram_checkin_pro.py:274-278 | finds nothing exactly when the key has no open break; otherwise finds the open row of the key with the greatest id |
| Rows.CloseOpenRows | telegram_checkin_pro.py:200-201 | every open row of the key, not only the newest, ends at the given time; every other row is unchanged; no open row of the key remains |
| Rows.CloseKeepsOtherKeys | telegram_checkin_pro.py:200-201 | closing one key's rows leaves the open-row count of every other key unchanged |
| Rows.OpenCountAppend | telegram_checkin_pro.py:193-194 | an appended open row raises its key's open-row count by one |
| Rows.RemoveChat | telegram_checkin_pro.py:501-502 | the rows kept are the table's rows outside the chat, and every such row is kept |
| Rows.DeleteChatRows | telegram_checkin_pro.py:501-502 | the one-pass delete keeps exactly the rows of the other chats, in order |
| Rows.RemoveChatIds | telegram_checkin_pro.py:501-502 | deleting a chat keeps the AUTOINCREMENT numbering: ids still increase and stay below the next id |
| Rows.Select | telegram_checkin_pro.py:346-357 | the selected rows are the table's rows of the key that overlap the window, and every such row is selected |
| Rows.DistinctUsers | telegram_checkin_pro.py:311-313 | the users considered are exactly the users with a work row in the chat, each listed once |
| Sorting.SortDesc | telegram_checkin_pro.py:320 | the result is a permutation of the input, with keys never increasing |
| Sorting.Insert | telegram_checkin_pro.py:320 | inserting into a sorted list keeps it sorted and adds exactly the element |
| Aggregation.CountKnownIsSum | telegram_checkin_pro.py:367-375 | the known-type leave count is the sum of the four per-type counts and at most the number of breaks, with equality exactly when every break is of a known type |
| Aggregation.MinutesKnownIsSum | telegram_checkin_pro.py:364-376 | the known-type leave minutes are the sum of the four per-type durations and at most the total break minutes, with equality when every break is of a known type |
| Aggregation.UnknownTypeOnlyInTotal | telegram_checkin_pro.py:364-374 | a break of an unknown type adds its minutes to the total break time and no count or known-type minutes |
| Aggregation.CrossingRowCountedTwice | telegram_checkin_pro.py:346-365 | a row that crosses local midnight is selected for both days and counts its whole length in each, unclipped |
| Aggregation.TallyKnown | telegram_checkin_pro.py:367-373 | the counts and durations have exactly the four known types as keys; each holds that type's count and minutes over the rows, open rows up to `now` |
| Aggregation.DailySummary | telegram_checkin_pro.py:362-382 | the totals are the minutes of the day's rows, with open rows up to `now`; the leave figures are the sums of the per-type counts and durations, at most the number of breaks and the total break minutes |
| Aggregation.CollectEntries | telegram_checkin_pro.py:315-320 | one entry per user, in order, with net work minutes (work minus break) and break minutes for the day |
| Aggregation.RankedEntries | telegram_checkin_pro.py:311-320 | every ranked entry carries its own user's figures for the day; every user with a work row in the chat is ranked once |
| Aggregation.Leaderboard | telegram_checkin_pro.py:308-327 | the ranking is a permutation of the per-user entries with net minutes never increasing; it covers exactly the users of the chat; at most 10 entries are shown, and they are the first ones |
| Aggregation.SeqMin | telegram_checkin_pro.py:582 | `None` exactly for no starts; otherwise the smallest start |
| Aggregation.SeqMax | telegram_checkin_pro.py:583 | `None` exactly for no ends; otherwise the largest end |
| Aggregation.ClosedEndsOf | telegram_checkin_pro.py:575-580 | the `ends` list holds exactly the ends of the closed rows |
| Aggregation.WorkRange | telegram_checkin_pro.py:564-584 | the loop computes the first start, the last closed end and the total minutes of the selected rows, with open rows counted up to the window's end |
| Aggregation.FirstStartMeaning | telegram_checkin_pro.py:575-582 | the first start is the earliest start of the selected rows, and is `None` exactly when no row is selected |
| Aggregation.LastEndMeaning | telegram_checkin_pro.py:575-583 | the last end is the latest end among the closed rows, and is `None` exactly when no row is closed |
| Aggregation.BreakSummary | telegram_checkin_pro.py:586-601 | the total is the minutes of the selected break rows, with open rows up to the window's end; the leave count is the number of overlapping break rows |
| Aggregation.CollectReportRows | telegram_checkin_pro.py:635-646 | one report row per user, in order, from the work range and the break summary over the report window |
| Aggregation.ReportRows | telegram_checkin_pro.py:604-648 | nothing for an unknown period or a chat without users; otherwise a permutation of the per-user report rows with work minutes never increasing |
| Store.Ensured | telegram_checkin_pro.py:152-160 | inserts the default row (no reminder, both flags 0) only for a chat without settings; every other chat's row is unchanged |
| Store.EnsuredIdempotent | telegram_checkin_pro.py:152-160 | ensuring twice is ensuring once; ensuring an existing chat changes nothing |
| Store.EnsuredCommute | telegram_checkin_pro.py:152-160 | ensuring two chats gives the same table in either order |
| Store.Toggle | telegram_checkin_pro.py:479 | the new flag is always 0 or 1, and it is 1 exactly when the old flag was 0 |
| Store.ToggleInvolution | telegram_checkin_pro.py:479 | on stored flags, toggling twice restores the flag and toggling once changes it |
| Store.Database.constructor | telegram_checkin_pro.py:66-105 | a fresh database has empty tables and ids starting at 1 |
| Store.Database.EnsureSettings | telegram_checkin_pro.py:152-160 | only the settings table changes, as the insert-if-absent function says |
| Store.Database.StartWork | telegram_checkin_pro.py:191-196 | settings are ensured; exactly one open work row with the next id is appended; the key's open count rises by one; nothing else changes |
| Store.Database.StartBreak | telegram_checkin_pro.py:205-210 | the same for a break row of the given type |
| Store.Database.EndWork | telegram_checkin_pro.py:198-203 | settings are ensured; every open work row of the key ends at `now`; no other row changes; the other keys' open rows stay open |
| Store.Database.EndBreak | telegram_checkin_pro.py:212-217 | the same for break rows |
| Store.Database.ResetChat | telegram_checkin_pro.py:496-504 | both tables keep exactly the rows of the other chats; the ids go on; the reset is logged; the settings stay |
| Store.Database.ToggleWeekly | telegram_checkin_pro.py:474-483 | settings are ensured; the weekly flag is flipped; `set_to:<value>` is logged |
| Store.Database.ToggleMonthly | telegram_checkin_pro.py:485-494 | the same for the monthly flag |
| Store.Database.ReturnToSeat | telegram_checkin_pro.py:268-304 | without an open break nothing is written; otherwise it reports the type and start of the newest open break and the minutes used up to `now`; every open break of the key is closed and none remains; the leave figures are those of the day's summary after the close |
| Store.ClosedBreakInToday | telegram_checkin_pro.py:286-293 | the break just closed is among the day's breaks, ending at `now` with the minutes reported as used |
| Watcher.BreakLimit | telegram_checkin_pro.py:49-54 | limits of 5, 10 or 30 minutes; 30 only for meals, 10 only for the big toilet break, 5 for any type outside the table |
| Watcher.Tick | telegram_checkin_pro.py:527-546 | stop exactly when no break is open; remind exactly when one is open and the limit has passed; wait otherwise |
| Watcher.Watch | telegram_checkin_pro.py:521-546 | the loop ends as the run over the wake-ups says |
| Watcher.WatchFromIff | telegram_checkin_pro.py:524-546 | a run reminds at a wake-up exactly when every earlier wake-up kept waiting and that one found an open break past the limit; the same for stopping, and for still waiting |
| Watcher.NotifiesOnce | telegram_checkin_pro.py:546 | after a reminder nothing observed later changes the outcome, so at most one reminder is sent |
| Watcher.RegularTicksNotify | telegram_checkin_pro.py:521-535 | with the break left open and a wake-up every 3 minutes, the reminder comes at the first wake-up at or after the limit |
| Watcher.AnyOpenBreakKeepsWatching | telegram_checkin_pro.py:528-531 | any open break of the key keeps the watcher going, even when the break that spawned it is closed |
| Filenames.SafeFilename | telegram_checkin_pro.py:554-556 | the result has none of `\ / : " * ? < > \|` and is no longer than the name |
| Filenames.SafeFilenameOfClean | telegram_checkin_pro.py:554-556 | a name without those characters is unchanged |
| Filenames.SafeFilenameIdempotent | telegram_checkin_pro.py:554-556 | cleaning twice is cleaning once |
| Filenames.SafeFilenameConcat | telegram_checkin_pro.py:554-556 | a name cut just after a legal character is cleaned piece by piece |
| Filenames.SafeFilenameRun | telegram_checkin_pro.py:554-556 | a whole run of illegal characters becomes a single `_` |

## Left out

- The Telegram handlers, reply texts, keyboards and member-name lookups are left out: they are user interface and network calls. Report rows carry the user id where the code puts a name.
- aiosqlite connections and SQL text are left out. The tables are sequences, the `WHERE` clauses are predicates, and the text comparison is justified by `to_str` preserving order.
- Concurrency between handlers and watchers, `asyncio.sleep` and `create_task` are left out. The watcher runs over a given sequence of wake-ups, each with the clock and the break table as seen then.
- `datetime.utcnow()` is represented by a `now` parameter. Within one handler every read of the clock is the same `now`.
- The apscheduler wiring, the manual report command and `get_chats_with_setting_enabled` are left out: they are scheduling plumbing.
- Building the Excel workbook, sending it to admins and `fmt_hm_local` display are left out: they are I/O and display. `safe_filename` is modelled on its own.
- Configuration loading (`load_dotenv`, `ADMIN_IDS`, the `BOT_TOKEN` check) and `is_admin` are left out.
- The broken imports at lines 551-552 are left out.
- The `pending_media_for_chat` states and the setters for reminder text and media are left out: they are UI flow. The settings row carries both fields for the insert.
- Store.Database.ReturnToSeat: requires the local clock reading to be a representable `datetime`. Past year 9999 `today_local_date` raises, and that error path is not modelled. When the local date is 0001-01-01 (`now` below 61200) the code closes the break and then raises OverflowError in `get_day_intervals_for_user_in_chat` (line 343); the model instead returns `BackFromBreak` with the figures.
- Windows.MonthWindow: for a base date in December 9999, `replace(year=10000)` (line 618) raises ValueError; the model returns a window ending after the last day `datetime` can hold.
- Windows.DayWindow: on 0001-01-01, subtracting the seven-hour offset (lines 343 and 627) raises OverflowError; the model returns a window starting at instant -25200. `Windows.WeekWindow`, `Windows.PeriodWindow`, `Aggregation.DailySummary` and `Aggregation.ReportRows` inherit this and return figures where the code raises.
- Windows.WeekWindow: for a base date from 9999-12-27 to 9999-12-31, adding 6 days 23:59:59 to the week's start (line 613) passes the last `datetime` and raises OverflowError, so no report is sent; the model returns a window ending after the last representable instant. `Windows.PeriodWindow` and `Aggregation.ReportRows` inherit this and return figures where the code raises.
- Watcher.Watch: for a break that starts less than its limit before the end of 9999-12-31, `start_dt_utc + timedelta(minutes=limit_minutes)` (line 523) raises OverflowError and the watcher task ends before its first wake-up; `Watcher.LimitAt` just adds, and the model's run goes on until the break is closed.
- Store.Database.StartWork, StartBreak, EndWork and EndBreak accept any `now`, also one outside the range of `datetime`, where `utcnow()` cannot go. Rows written with such a `now` have no `to_str` text, so `TimeFormat.ToStrOrder` and `Windows.SqlOverlapsIff` say nothing about them.
- TimeFormat.ParseStr: accepts only the canonical 19-character form. `strptime` also accepts some non-padded fields; those lenient forms are not modelled.
- Sorting.SortDesc: stability (ties keep their input order, as `list.sort` does) is not proved. Only the permutation and the order are stated.
- The microseconds of `time.max` in the daily and monthly report ends are dropped. With whole-second row times they never change a floored minute count.
