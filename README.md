# IA-1 habit bot — verified model

A Dafny model of the deterministic core of `bot.py`, a Telegram bot for a 30-day habit
programme. Users send daily text reports, look up the day's mission, see how many days
they reported in the last 30 days, and set a daily reminder time. The model covers:

- **Users** (`users.dfy`): the user id type shared by the report and reminder tables.
- **Calendar** (`calendar.dfy`): the cyclic 1..30 day index of a day of the month, and the
  start of the 30-day progress window.
- **Text** (`text.dfy`), **Numbers** (`numbers.dfy`): the parts of Python's `str.strip()`,
  `str.split(':')`, `str(i)` and `int()` that the bot relies on. They are defined on
  character sequences, and their round trips are proved (split/join, strip idempotence,
  `int(str(n)) == n`).
- **Missions** (`missions.dfy`): the loop that builds the 30-entry `MISSIONS` table, a
  declarative description of that table, and the `/mission` lookup.
- **Reminders** (`reminders.dfy`): the `HH:MM` parse shared by `/setreminder` and the
  reminder job, the `/setreminder` argument check, the reminder table with its
  `REPLACE INTO` upsert, and one tick of the reminder job.
- **Reports** (`reports.dfy`): the report row and the `/progress` query. That query is the
  set of distinct dates of one user's reports inside the 30-day window.
- **Bot** (`bot.dfy`): the class `BotState`. It holds three pieces of mutable state: the
  per-user conversation map, the report table and the reminder table. It has one method
  per handler (`/report`, a text message inside the conversation, `/cancel`,
  `/setreminder`, the reminder job) and a function for `/progress`.

Dates are day numbers (`int`): the local date of a report, "today" and the window start
are all ordinals, so `today - 29` is plain subtraction. Every source of input is a
parameter: the clock reading (`LocalNow`), the message text, the command arguments and
the set of users to whom a send fails. Replies are values of `Reply` instead of messages
sent.

The reminder table has `user_id` as its integer primary key. It is therefore modelled as
a sequence of rows in ascending user order, which is the order a full scan of such a
table returns. `Lookup` gives the time a user has. `Upsert` is `REPLACE INTO`: the user's
row is replaced, or a new row is inserted at its key position. The reminder job walks
these rows in order. A stored time that does not parse raises inside the loop, which ends
the job's run there; the rows read before that point have already been sent to. The loop is written for any parse of a stored time, and the job passes
`ParseHourMinute`, the reading of `map(int, time_str.split(":"))`.

## Model

| member | source | states |
|---|---|---|
| Calendar.DayIndex | bot.py:80-81 | The day index is always in 1..30. It equals the day for days 1..30, and day 31 wraps to 1. |
| Calendar.DayIndexCycle | bot.py:80-81 | The index repeats every 30 days. |
| Calendar.DayIndexPreimage | bot.py:80-81 | Within a month, an index comes from either that day or the day 30 later. |
| Calendar.WindowStart | bot.py:134 | The progress window from `since` to `today` spans exactly 30 days. |
| Text.Strip | bot.py:110 | The stripped text is never longer than the input. |
| Text.StripIsTrim | bot.py:110 | `strip()` removes a whitespace-only prefix and suffix, and the result neither starts nor ends with whitespace. |
| Text.TrimUnique | bot.py:110 | Only one string has that property, so `Strip` is the strip. |
| Text.StripUnpadded | bot.py:110 | A text without surrounding whitespace is its own strip. |
| Text.StripIdempotent | bot.py:110 | Stripping twice gives the same result as stripping once. |
| Text.Split | bot.py:148 | `split(':')` gives at least one piece, and none of the pieces contains ':'. There is exactly one piece when the text has no ':'. |
| Text.JoinSplit | bot.py:148 | Joining the pieces of a split with the separator gives back the text. |
| Text.SplitJoin | bot.py:148 | Splitting a join of separator-free pieces gives back those pieces. |
| Text.SplitWithoutSeparator | bot.py:148 | A text without ':' splits into itself alone. |
| Text.SplitAtFirst | bot.py:148 | A split at the first ':' gives the part before it, then the split of the rest. |
| Numbers.Decimal | bot.py:94 | `str(i)` of a natural number is a non-empty digit string without a leading zero. |
| Numbers.DecimalInjective | bot.py:94 | Different day numbers have different decimal spellings. |
| Numbers.PyInt | bot.py:148 | `int()` accepts only text that is not empty once stripped and contains none of U+001C..U+001F, which `str.isspace()` counts as whitespace but `int()` does not skip. |
| Numbers.GroupedValueDecimal | bot.py:148 | The digits of `str(n)` read back as n. |
| Numbers.PyIntDecimal | bot.py:148 | `int(str(n)) == n` for every natural number n. |
| Numbers.PyIntPad2 | bot.py:148 | `int()` of a two-digit, zero-padded number gives the number. |
| Missions.Theme | bot.py:86-93 | The theme of day i: observation up to 7, memory up to 14, communication up to 21, strategy after that (a definition, no contract of its own). |
| Missions.Entry | bot.py:94 | The catalog line of day i, "День i: " and its theme (a definition; `Missions.LineDayNumber` and `Missions.EntryInjective` state its properties). |
| Missions.BuildMissions | bot.py:84-94 | The start-up loop builds exactly the table `Catalog()`. |
| Missions.Catalog | bot.py:84-94 | The mission table has 30 entries. |
| Missions.CatalogThemes | bot.py:84-94 | Entry i-1 is "День i: " followed by the observation text for i in 1-7, memory for 8-14, communication for 15-21 and strategy for 22-30. |
| Missions.MissionFor | bot.py:124-127 | The `/mission` lookup is in range and picks entry `DayIndex - 1`: the entry of that day for days 1..30, and entry 1 for day 31. |
| Missions.SameMissionSameIndex | bot.py:124-127 | Two days get the same mission exactly when their day indices are equal. |
| Missions.EntryInjective | bot.py:84-94 | No two days share a mission line. |
| Missions.LineDayNumber | bot.py:94 | The text before the first ':' of a mission line is "День " followed by its day number. |
| Reminders.ParseHourMinute | bot.py:148 | `map(int, s.split(":"))` unpacked into two names succeeds only on text containing ':'. |
| Reminders.CheckReminderArgs | bot.py:141-154 | The usage reply comes exactly when there is not exactly one argument or it lacks ':'. The argument is stored exactly when it is the only argument and parses to 0 <= h < 24, 0 <= m < 60. Every other input gets the bad-format reply. |
| Reminders.ParseClockString | bot.py:148 | An "HH:MM" spelling of an hour and a minute parses back to them. |
| Reminders.ClockStringAccepted | bot.py:141-154 | Every in-range time written as "HH:MM" is accepted. |
| Reminders.AcceptedFiresAtItsMinute | bot.py:157-162 | A string that `/setreminder` accepts is due, when the job re-parses it, at exactly the accepted hour and minute. |
| Reminders.IsDue | bot.py:161-162 | A stored time is due when it parses to the current hour and minute (a definition; `Reminders.AcceptedFiresAtItsMinute` states its property). |
| Reminders.UsersWhere | bot.py:160-162 | The users of the rows passing a test, in row order: at most one user per row. |
| Reminders.DueRows | bot.py:160-162 | The users one pass over the rows sends to (a definition; `Reminders.DueRowsMembers` states its membership). |
| Reminders.UsersWhereMembers | bot.py:160-163 | A user is selected exactly when one of their rows passes the due test. |
| Reminders.UsersWhereStep | bot.py:160-163 | Reading one more row extends the send list by that row's user when its time is due. |
| Reminders.DueRowsMembers | bot.py:160-163 | A user is sent to exactly when one of their rows parses to the current hour and minute. |
| Reminders.DueRowsLookup | bot.py:160-163 | Over a table with one row per user, a user is sent to exactly when their stored time is due. |
| Reminders.UsersWhereDistinct | bot.py:160-163 | When no user has two rows, nobody is sent to twice in one tick. |
| Reminders.ParsedPrefix | bot.py:160-161 | The job reads at most all the rows. |
| Reminders.ParsedPrefixBounds | bot.py:160-161 | Every row before the stopping point parses, and the row at the stopping point does not. |
| Reminders.ParsedPrefixAll | bot.py:160-161 | When every row parses, the job reads them all. |
| Reminders.ParsedPrefixStep | bot.py:160-161 | When a row parses, the job goes on to the next row. |
| Reminders.ParsedPrefixStop | bot.py:160-161 | When a row does not parse, the job reads nothing from it on. |
| Reminders.DeliveredStep | bot.py:163-166 | Attempting one more user adds them to the delivered list unless their send fails. |
| Reminders.Delivered | bot.py:163-166 | A send succeeds exactly for the attempted users outside the failing set. |
| Reminders.ReminderTick | bot.py:157-166 | For any parse of the stored times: the run stops early (raises) exactly when some row does not parse. It sends, in row order, to the due users of the rows read before that point. A failed send leaves the later rows' sends in place. |
| Reminders.Lookup | bot.py:37-40 | A found time belongs to a row of that user. A missing user has no row. |
| Reminders.Upsert | bot.py:60-65 | Every row after `REPLACE INTO` is either the new row or an old row, and the new row is present. |
| Reminders.UpsertLookup | bot.py:60-65 | After the upsert the user's time is the new string, and every other user's time is unchanged. |
| Reminders.UpsertSorted | bot.py:60-65 | The upsert keeps the table in key order, so each user still has at most one row. |
| Reminders.LookupRow | bot.py:37-40 | In a table with one row per user, each row is what a lookup of its user finds. |
| Reports.DistinctDatesSince | bot.py:135-138 | A date is in the result exactly when some report of that user carries it and it is on or after the window start. |
| Reports.DatesIgnoreOtherUsers | bot.py:135 | Another user's report does not change a user's progress dates. |
| Reports.DatesOwnReport | bot.py:135 | A user's new report adds its date to their progress dates if it lies in the window, and adds nothing otherwise. |
| Reports.Days | bot.py:134-135 | A run of n consecutive days has exactly n members. |
| Reports.ProgressAtMostThirty | bot.py:134-139 | With no report dated after today, the progress count is at most 30. |
| Bot.BotState.constructor | bot.py:21-41 | Start-up keeps the stored tables and opens no conversation. |
| Bot.BotState.SaveReport | bot.py:43-52 | The insert appends exactly one row with the next id and leaves earlier rows unchanged. |
| Bot.BotState.SetReminder | bot.py:60-65 | The user's reminder becomes the new string, every other user's is unchanged, and the table stays one row per user in key order. |
| Bot.BotState.CmdReport | bot.py:105-107 | `/report` moves the user to awaiting from any state, re-entry included. No other user's state and no table changes. |
| Bot.BotState.OnTextMessage | bot.py:109-118 | An idle user's text is ignored. An awaiting user's text under 10 characters once stripped is refused, and the user keeps waiting. A longer text appends one report, holding the stripped text, the clock's date and that date's day index, and ends the user's conversation. Only accepted texts are ever stored. |
| Bot.BotState.CancelReport | bot.py:120-122 | `/cancel` returns the user to idle. It replies only inside a conversation. |
| Bot.BotState.CmdSetReminder | bot.py:141-154 | The argument is stored (upserted) exactly when `CheckReminderArgs` accepts it. Every other input leaves the table unchanged. Every stored time stays one the job can read. |
| Bot.BotState.CmdProgress | bot.py:130-139 | Every date shown is on or after today - 29 and is the date of one of this user's own reports, and every such report date in the window is shown. With no future-dated report there are at most 30 of them. |
| Bot.BotState.SendReminderJob | bot.py:157-166 | The job sends, in table order, to the due users of the rows it reads. It stops early exactly when some stored time does not parse, which never happens while every stored time is readable. Otherwise it sends exactly to the users whose stored time equals the current hour and minute, each once. A failed send only removes that user from the delivered list. |

## Left out

- Telegram transport: updates, `reply_text`, `send_message`, handler registration and polling. Replies are returned as `Reply` values, and their Russian wording is not modelled (except the mission texts).
- `/start` only sends a fixed greeting, so it is not modelled.
- SQLite and the CSV backup: connections, SQL text and commits are replaced by the class's fields. A storage failure is not modelled, and neither is the CSV append that runs after the commit.
- The clock and time zone (`get_local_now`, pytz, `isoformat`). The clock reading is a `LocalNow` parameter, carrying the timestamp string, the date as a day number, the day of the month, the hour and the minute.
- Calendar arithmetic (`timedelta(days=29)`) and ISO date strings. Dates are day numbers, so lexicographic comparison of ISO strings is taken to agree with date order.
- `Reports.DistinctDatesSince`: returns a set. The order in which `SELECT DISTINCT` lists the dates is unspecified, so the order of the dates in the reply is not modelled.
- The JobQueue's 60-second repetition and async scheduling. One tick is modelled.
- Which user's send fails is given as the `failing` parameter, and the logging of the failure is left out.
- `Numbers.PyInt`: models `int()` with surrounding whitespace, an optional sign and underscores between digits, over ASCII digits only. Python also accepts other Unicode decimal digits, which are not modelled.
- The conversation handler keys its state by chat and user, the library default. The model keys it by user alone, which is the same thing when each user talks to the bot in one private chat. Group chats are not modelled.
- The reminder table's row order is the ascending key order of SQLite's full scan. SQL itself does not promise an order for a `SELECT` without `ORDER BY`.
- Configuration, logging and the unused `DEFAULT_REMINDER`.
