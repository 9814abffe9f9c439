# RadRaspberry attendance core, modelled in Dafny

RadRaspberry records badge swipes at lectures. This project models four pieces of it:

- the card-reader client's track-data decoder (`parse_card_info`);
- the stand-alone capture station, which opens a daily window, reads swipes with a timeout, appends them to a CSV file, and mails and resets that file at closing time;
- two versions of the recorder web service. Each stores swipes in a SQLite table, confirms them by mail against a roster CSV, and mails a daily summary. In the summary, the last day's swipes are left-joined with the roster.

The recorder versions differ in one ordering choice. The first looks up the roster before it stores the swipe. The second stores the swipe first, so a badge the roster does not know is stored and still gets a 404.

Files:

- `wrappers.dfy`: module `Wrappers`, the `Option` type shared by the models.
- `strings.dfy`: module `Strings`. It models Python's `count`, `split`, `join` and the slices `[:-1]` and `[1:]`. It proves `split` correct against a first-occurrence view (`Before`/`After`) and proves the round trip with `join`.
- `card_parser.dfy`: module `CardParser`, the decoder as a pure function with three outcomes: accepted, rejected (`None`), or crashed (the `IndexError` its caller swallows).
- `capture_station.dfy`: module `CaptureStation`. Clock parsing, the window predicate and input classification are functions. The loop is class `Station`: a `file` field for `attendance.csv` and a ghost `sent` log of mailed bodies. Its methods `SendEmail`, `Tick` (one pass of the `while True` loop) and `Run` (passes until one raises) are proved against the functions `AfterSend`, `AfterTick`, `AfterTicks` and `StopsEarly`. The lemmas about those functions state the station's properties.
- `recorder.dfy`: module `Recorder`. It holds what both services share: the roster lookup, the `WHERE timestamp > cutoff` selection, the left join, the summary and its mail.
- `lookup_first.dfy` (module `LookupFirst`) and `insert_first.dfy` (module `InsertFirst`) hold the two services. Each has a pure `AfterSwipe` and a class `Server`; the lookup-first service also has its own `AfterSendSummary`. The class has a `swipes` table field and a ghost `outbox` field, and its methods `Swipe` and `SendSummary` are proved against those functions.
- `variants.dfy`: module `Variants`, which proves the two services side by side.

Modelling choices:

- The capture station's clock counts microseconds since midnight. Python's `datetime` carries microseconds, and the window edges have them zeroed, so a swipe at 09:00:00.5 is inside a window that opens at 09:00.
- The recorder's timestamps are integer seconds. A day is 86400 of them.
- The SQLite table is a sequence in insertion order.
- The roster is a sequence of `(id, name, email)` rows, passed to every operation because the services reload it on every call.
- Mail is an outbox: every message handed to the mail API is appended. Whether the API answered 200 is an input (`mailOk`). A non-200 answer becomes a 500 response and never removes a stored row.
- The timed read's result, the timestamp's text, and whether the weekday scheduler has a send due are inputs of a pass of the station's loop.

Where the design description and the code disagree, the model follows the code:

- The window is open only strictly between its edges (`open < now < close`), not `open <= now < close`.
- The decoder returns the same `None` for bad framing and for a short identity. It does not test for the timeout sentinel; `"TIMEOUT"` is rejected anyway because it has no `=`.
- The lookup-first service refuses unknown ids before storing them. Only the insert-first service stores them.
- The summary keeps table order; nothing sorts it by time.
- The lookup-first summary is not a total transform. With no stored swipe later than a day before the request, the timestamp column it reads back is empty and carries no time zone, so the conversion to New York time raises (rad_raspberry/server.py:148-159). Nothing is written or mailed, and the answer is a 500 (`ServerError`). The insert-first summary has no conversion and mails an empty report instead.
- The station's file is not recreated by a reset when it is missing. `send_email` reads the file first, so a missing file makes it raise.

## Model

| member | source | states |
|---|---|---|
| Strings.Count | rad_raspberry/main.py:29 | `count` is at most the length of the text, and zero exactly when the character does not occur |
| Strings.DropLast | rad_raspberry/main.py:31 | `[:-1]` gives the text without its last character, so that character appended gives back the text; the empty text stays empty |
| Strings.DropFirst | rad_raspberry/main.py:32 | `[1:]` gives the text without its first character, so that character prepended gives back the text; the empty text stays empty |
| Strings.Split | rad_raspberry/main.py:31-32 | `split` yields one more piece than there are separators, and no piece contains the separator |
| Strings.SplitHead | rad_raspberry/main.py:31-32 | the first piece of `split` is the text before the first separator; when there is a separator, the rest of the pieces are the split of the text after it |
| Strings.JoinSplit | rad_raspberry/main.py:31-32 | joining the pieces of `split` with the separator gives back the string, so no character is lost |
| CardParser.ParseCardInfo | rad_raspberry/main.py:27-42 | the result is `None` whenever the track does not hold exactly two `=` or is 15 characters or shorter; an accepted card has an identity of at least 7 characters and carries the input unchanged; a crash happens only on a well-framed track |
| CardParser.ParseCardInfoFields | rad_raspberry/main.py:29-42 | full outcome: `None` on bad framing; a crash exactly when no `%` precedes the first `?`; `None` for an identity under 7 characters; otherwise identity = the text after the first `%` up to the next `%` within the pre-`?` text, minus its last character, and badge = the text between the first and second `=`, minus its first character |
| CardParser.BadgeFieldExists | rad_raspberry/main.py:29-32 | with exactly two `=`, the badge field is closed by the second `=`, and the track splits into prefix, field and an `=`-free rest |
| CardParser.ParseTrack | rad_raspberry/main.py:29-40 | round trip: a track laid out as lead `%` identity pad `?` middle `=` pad badge `=` tail decodes to exactly that identity and badge, or to `None` when the identity is shorter than 7 |
| CardParser.SampleTrack | rad_raspberry/main.py:29-40 | `B%12345670?;=1BADGE99=99` decodes to identity `1234567` and badge `BADGE99`, with the input as third element |
| CardParser.ShortIdentityRejected | rad_raspberry/main.py:33-34 | a well-framed track whose identity has 6 characters is rejected |
| CaptureStation.ParseNat | main.py:43-51 | `int()` of a field succeeds exactly when the field is a non-empty string of decimal digits |
| CaptureStation.ParseClock | main.py:42-53 | a parsed opening or closing time is a whole minute of today; text without `:` raises |
| CaptureStation.ParseClockText | main.py:42-53 | round trip: the text `HH:MM` of any valid hour and minute parses to hour*60+minute minutes, with seconds and microseconds zero |
| CaptureStation.TodayWindow | main.py:41-53 | today's window exists exactly when both the opening and the closing time parse; both its edges are then whole minutes of today |
| CaptureStation.WindowShape | main.py:55 | for any window (the `Accepting` predicate): both edges are closed, every open instant lies strictly between them, and some instant is open exactly when closing is more than one microsecond after opening |
| CaptureStation.AcceptingBetween | main.py:55 | an instant between two open instants is open: the window is one interval |
| CaptureStation.NineToFive | main.py:42-55 | with `09:00`-`17:00`, 08:59 and both edges are closed, while 09:00 plus one microsecond and 16:59 are open |
| CaptureStation.Classify | main.py:56-63 | the input is a timeout exactly when it equals `TIMEOUT`; it rings the alarm exactly when it is not that and has no `=`; otherwise the badge is the untrimmed text between the first and the second `=` |
| CaptureStation.AfterSend | main.py:13-30 | `send_email` never deletes or creates the file, and it mails either nothing or exactly the rows the file held |
| CaptureStation.SendMailsThenResets | main.py:13-30 | a send succeeds exactly when the file exists and the mail goes through; it mails the rows as they were and leaves only the header row; a failed send changes nothing |
| CaptureStation.ResetIdempotent | main.py:28-30 | two successful sends in a row leave exactly one header row; the second mail carries only the header |
| CaptureStation.TickFrame | main.py:40-73 | for any pass of the loop (`AfterTick`): a pass that raises changes nothing; only a send mails, and it mails the rows as they were and leaves the header; every other pass keeps the earlier rows, mails nothing, and never removes the file |
| CaptureStation.AfterTicks | main.py:40-73 | over any run of passes, the mail log only grows at its end, and a file that exists is never removed |
| CaptureStation.ConfigErrorStops | main.py:40-53 | a malformed opening or closing time ends the process at the first pass, with the file and the mail log unchanged |
| CaptureStation.NoSendNeverStops | main.py:40-73 | with well-formed times and no send due, no pass raises, so the loop runs through the whole run |
| CaptureStation.ClosedTickIgnoresInput | main.py:55-73 | outside the window no swipe is read: the pass does not depend on the input; it only mails and resets, raises, or idles |
| CaptureStation.OpenTick | main.py:55-69 | inside the window nothing is mailed; a timeout and an input without `=` leave the file unchanged (the latter rings the alarm); any other input appends exactly one row `[second =-field, stamp]` after the earlier rows |
| CaptureStation.NoSendAppendsSwipes | main.py:40-73 | over passes with no send due, nothing is mailed and the file grows by exactly the rows of the swipes read inside the window, in order |
| CaptureStation.Station.SendEmail | main.py:13-30 | the method's new file and mail log are those of `AfterSend` |
| CaptureStation.Station.Tick | main.py:40-73 | one pass of the loop; the new state and outcome are those of `AfterTick` |
| CaptureStation.Station.Run | main.py:40-73 | the loop over a finite run of passes, stopping at the first pass that raises; the final state is that of `AfterTicks`, and the result says whether a pass raised (`StopsEarly`) |
| Recorder.Matches | rad_raspberry/server.py:117 | the roster filter keeps exactly the rows with the requested id |
| Recorder.MatchesHead | rad_raspberry/server.py:117-128 | the filter is empty exactly when the id is unknown; otherwise its first row, whose email and name the confirmation uses, is the first roster row with that id |
| Recorder.SelectSince | server.py:113-116 | the selection holds exactly the stored rows whose timestamp is after the cutoff |
| Recorder.JoinSwipe | rad_raspberry/server.py:157 | in the left merge each swipe yields at least one row, every one of them with the swipe's id and time |
| Recorder.LeftJoin | rad_raspberry/server.py:157 | the left merge has at least one row per swipe, and is empty exactly when there are no swipes |
| Recorder.DailySummary | server.py:113-120 | the summary has at least one row per swipe of the last day, and is empty exactly when no stored swipe is later than a day before the request |
| Recorder.SummaryWithinDay | server.py:113-120 | every summary row is a stored swipe later than a day before the request |
| Recorder.LeftJoinKeepsEverySwipe | rad_raspberry/server.py:157 | the left join drops no selected swipe: each one has a summary row with its id and time |
| Recorder.LeftJoinRowsFromSwipes | rad_raspberry/server.py:157 | every summary row is a selected swipe; its roster columns are null exactly when the roster lacks the id, and otherwise come from a roster row with that id |
| Recorder.LeftJoinOneRowPerSwipe | rad_raspberry/server.py:157 | with unique roster ids there is exactly one summary row per swipe, in order, holding the first matching roster row's name and email, or nulls |
| Recorder.AfterSummary | server.py:110-132 | writing and mailing the summary leaves the table alone and appends exactly one mail after the earlier ones; the answer is 200 or the mail failure's 500 |
| Recorder.SummarySendsOnce | server.py:110-132 | the summary leaves the table alone and sends exactly one mail to the summary recipient with two attachments, which are empty when no swipe is in range; the response is 500 exactly when the mail fails |
| Recorder.StoredSwipeInNextSummary | server.py:113-116 | a row stored after the earlier ones, less than a day before a summary request, is the last row that summary selects |
| LookupFirst.AfterSwipe | rad_raspberry/server.py:106-135 | a 404 changes nothing; any other answer comes after exactly one row `(id, now)` appended to the table and one mail appended to the outbox |
| LookupFirst.SwipeEffect | rad_raspberry/server.py:106-135 | unknown id: 404, with nothing stored or mailed; known id: exactly one row `(id, now)` appended after the earlier rows, and a confirmation to the first matching roster row; the row stays when the mail fails (500) |
| LookupFirst.Server.Swipe | rad_raspberry/server.py:106-135 | the table, the outbox and the response after `/swipe` are those of `LookupFirst.AfterSwipe` |
| LookupFirst.AfterSendSummary | rad_raspberry/server.py:138-176 | the summary request never changes the table, and when it raises it changes nothing |
| LookupFirst.SummaryEffect | rad_raspberry/server.py:138-176 | the request raises (500, nothing written or mailed) exactly when no stored swipe is later than a day before it; otherwise it sends one mail to the recipient with a non-empty report as `<stamp>.xlsx` and `<stamp>.csv`, and answers 200 exactly when the mail goes through |
| LookupFirst.Server.SendSummary | rad_raspberry/server.py:138-176 | returns the daily summary of the table; the new table, outbox and response are those of `LookupFirst.AfterSendSummary` |
| InsertFirst.AfterSwipe | server.py:83-108 | every call appends exactly one row `(badge, now)` to the table; a 404 mails nothing, and any other answer appends exactly one mail |
| InsertFirst.SwipeEffect | server.py:83-108 | every call appends exactly one row `(badge, now)` after the earlier rows; 404 exactly when the badge is unknown, with no mail then; a known badge is confirmed to its first roster row; the row stays when the mail fails (500) |
| InsertFirst.Server.Swipe | server.py:83-108 | the table, the outbox and the response after `/swipe` are those of `InsertFirst.AfterSwipe` |
| InsertFirst.Server.SendSummary | server.py:110-132 | returns the daily summary of the table and appends one mail with attachments `summary.xlsx` and `summary.csv`; the table is unchanged |
| Variants.KnownIdSameEffect | server.py:89-106 | for an id the roster knows, both services store, mail and answer identically |
| Variants.UnknownIdDiffers | server.py:89-98 | for an unknown id both answer 404 and mail nothing; the lookup-first table is unchanged, while the insert-first table gains the row |
| Variants.RunsCompared | server.py:89-98 | over any run of swipes, the insert-first table gains every requested row, the lookup-first table only the rows of known ids, and both send the same mails |
| Variants.LookupFirstSummaryHasNoNullRows | rad_raspberry/server.py:117-125 | when the table starts with known ids and the roster stays the same, no lookup-first summary row has null roster columns |
| Variants.UnknownBadgeInSummary | server.py:89-120 | an unknown badge swiped at the insert-first service within the last day appears in its next summary with null name and email |

## Left out

- The HTTP layer (FastAPI routes, `uvicorn.run`, request bodies) is left out. The endpoints are methods, and the 200, 404 and 500 answers are the values of `Response`.
- The mail transports (`requests.post`, `smtplib`, base64 encoding of attachments) are left out. The message text (subjects, HTML bodies, dates in them) is not modelled either: a mail is its recipient and its data.
- The card-reader client's `run` and `swipe` coroutines, `asyncio` tasks, `to_thread`, `tcflush` and the exception handler around them are left out. That handler is why a decoder crash is harmless.
- The terminal read with a timeout (`timedinput`), the alarm's bell character, the message printed while closed, and the 30-minute sleep are left out. The read's result is an input of a pass.
- The weekday schedule (`schedule.every().<day>.at(close_time)`) is left out. Whether a send is due when the pending jobs run is an input of a pass.
- Time zones, `strftime` presentation and the renamed `swipe_time` column are left out. Timestamps are plain integers, and summary rows carry them unformatted. The one effect of the time-zone conversion that the model keeps is the exception it raises on an empty selection in the lookup-first summary (`LookupFirst.AfterSendSummary`).
- The first service's timestamp comparison is left out. It compares SQLite TEXT values written in two formats: stored values are UTC with a space separator (rad_raspberry/server.py:109,123-124), while the cutoff is local `isoformat` with a `T` (rad_raspberry/server.py:145). The model compares integers. As written, string ordering can exclude rows stored on the cutoff's calendar date and shifts the window by the UTC offset.
- The SQL `SELECT` has no `ORDER BY`. The model assumes the table's insertion order, which is what SQLite gives for this table.
- pandas (`read_csv`, `read_sql_query`, `merge`, `to_excel`, `to_csv`) and the sqlite connection are replaced by sequences and functions. CSV quoting, missing values in the roster CSV, and the roster's extra columns are not modelled.
- Concurrent requests to the recorder services are left out. Each call is modelled as one atomic step on the table.
- Logging, environment-variable configuration, directory creation and `setup.py` are left out.
- CaptureStation.ParseNat: Python's `int()` also accepts a sign, surrounding whitespace, underscores and non-ASCII digits. The model accepts only ASCII digit strings, so `" 9:00"` is a configuration error here but 09:00 in Python.
- CaptureStation.Station: `sent` records only mails that were delivered. An SMTP failure raises before the file is reset; the model treats that as the end of the loop, and the file keeps its rows.
