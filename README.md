# Athan daemon scheduling, modelled in Dafny

The athan daemon (`athan.py`) polls the clock every few seconds and plays
the call to prayer at each of the five daily prayer times of a mosque. It
also plays a few extra recordings:
- a 10-minute looping Quran "pre-clip" five minutes before prayers;
- evening athkar before Isha;
- morning athkar at 06:30;
- Surat al-Kahf before Asr on Fridays.

The times come from the mosque's web page. The daemon rebuilds its
schedule once a day, and once more after 02:00. It fires each event at
most once per schedule generation, in a 60-second window; an event already
fired can fire again after the post-02:00 rebuild (see Findings). A small web board (`ui.py`) shows the same times,
the current and next prayer, and a countdown.

This project models the logic of both files. The scraping, the audio, the
threads and the web plumbing are left out.

- `Clock` (clock.dfy) gives local time as integer seconds from midnight of
  day 0, a Monday.
  - It has date and time-of-day decomposition, the weekday, and the clock
    text as its fields: hour, minute and AM/PM.
  - It proves round trips between an instant and its date and time, and
    between a time of day and those clock-text fields.
- `Sorting` (sorting.dfy) is the stable sort by key that Python's
  `list.sort` and `sorted` perform, written as an insertion sort. It is
  proved sorted, a permutation of its input, and stable.
- `Schedule` (schedule.dfy) is `build_today_schedule` and `sound_for`.
  - The builder is an imperative method, proved equal to a function:
    stable-sort the emitted events by time.
  - Lemmas state each event rule as an if-and-only-if:
    - one call per present prayer;
    - a `<p>-QuranPre` five minutes before every present prayer except Isha,
      and except Asr on Fridays;
    - `Isha-Pre`, `Morning-Athkar` and `Kahf-PreAsr`.
  - Further lemmas state the ordering: sorted, with ties in emission order.
- `Refresh` (refresh.dfy) is `should_refresh` and the refresh bookkeeping
  of `main`.
  - It proves that within a day exactly one rebuild happens once the clock
    passes 02:00.
  - It proves that the end-of-poll update at athan.py:350-351 never changes
    the state.
  - It shows that a rebuild whose fetch returns after midnight records the
    new date with the post-02:00 flag already set, so that date gets no
    post-02:00 rebuild.
- `Engine` (engine.dfy) is one iteration of the polling loop of `main`.
  - It is a functional `Step` together with a class `EventEngine`, whose
    `Tick` is proved equal to `Step`.
  - The proved properties:
    - the 60-second trigger window;
    - at most one firing per key;
    - a second tick at the same instant fires nothing;
    - a failed rebuild changes nothing;
    - every fired key belongs to the current schedule;
    - a rebuild can fire an already fired event again, and `StepOnce`, which
      keeps the fired keys of events still scheduled, does not fire it again
      at the next tick and fires every due event whose key is new.
- `Segment` (segment.dfy) is `play_quran_segment` and its `_play_loop`.
  - It runs on a clock that only the sleeps advance, over an abstract
    offset store.
  - It proves the shape of the looping playback, the saved offset, and the
    fact that resuming where playback stopped holds only for sessions that
    start at offset 0.
- `Board` (board.dfy) is `build_schedule`, `get_current_and_next` and the
  countdown text of `ui.py`.
  - `build_schedule` returns the prayers in prayer-list order. Its
    docstring (ui.py:60) calls this "sorted by time", which holds only
    when the fetched times rise along the prayer list; an Isha after
    midnight breaks it. `get_current_and_next` sorts by time itself.

Instants are whole seconds. A fetched prayer time is a second of the day,
whose text form is `Clock.ParseClock`. The instant a poll reads before it
fetches is a parameter, `now`. So is `today`, the date a rebuild reads once
the fetch has returned (athan.py:326): it is the build date and the recorded
refresh date, and the weekday is computed from it. The post-02:00 flag comes
from `now` (athan.py:327). The start-up fetch reads its date and its instant
after the fetch, and the model takes both from one instant. The outcome of
each fetch and whether the Isha pre-clip file exists are parameters too.

## Model

| member | source | states |
|---|---|---|
| Clock.Weekday | athan.py:230 | the weekday number of a date is in 0..6 |
| Clock.WeekdayCycle | athan.py:230 | day 0 is a Monday (0); the next date has the next weekday, Sunday wrapping to Monday; weekdays repeat every 7 days; a date is a Friday iff it is 4 more than a multiple of 7 |
| Clock.DateTimeRoundTrip | athan.py:337 | an instant is exactly its date plus its time of day, and a date with a time of day decomposes back into them |
| Clock.DateTimeInjective | athan.py:337 | two instants have the same (date, time) pair iff they are equal, so the fired key identifies an instant |
| Clock.ParseClock | athan.py:207-211 | `%I:%M%p` parsing succeeds iff hour is 1..12 and minute 0..59; the result is a whole minute, and in the afternoon iff PM |
| Clock.FormatClock | ui.py:102 | `%I:%M %p` formatting always yields valid clock text |
| Clock.ParseFormat | athan.py:207-211 | parsing the formatted time of day gives that time truncated to the minute |
| Clock.FormatParse | athan.py:207-211 | formatting a parsed valid clock text gives back the same hour, minute and AM/PM |
| Sorting.WithKey | athan.py:250 | the filter that stability is stated with: the elements of one key in list order, never longer than the list |
| Sorting.WithKeyExact | athan.py:250 | the filter keeps only elements of the key, each at most as often as the list holds it, and every element of the key |
| Sorting.InsertBy | athan.py:250 | one insertion step adds exactly the new element to the multiset |
| Sorting.SortBy | athan.py:250 | the sort result has the input's length and multiset, and is in ascending key order |
| Sorting.InsertByBound | athan.py:250 | inserting an element above a bound into a list above that bound keeps every key above it |
| Sorting.InsertBySorted | athan.py:250 | inserting into a sorted list gives a sorted list |
| Sorting.InsertByWithKey | athan.py:250 | insertion puts the new element first among the elements with its key |
| Sorting.SortByStable | athan.py:250 | the sort keeps elements with equal keys in their input order (stability) |
| Schedule.SoundFor | athan.py:155-156 | the payload is the Fajr recording iff the prayer is Fajr, and the general recording otherwise; it is never empty, so the guard at athan.py:226 always passes |
| Schedule.BuildTodaySchedule | athan.py:213-251 | the appending loop followed by the sort yields exactly the stable sort of the emitted events by time |
| Schedule.Emitted | athan.py:222-248 | the emitted events always include today's Morning-Athkar |
| Schedule.Built | athan.py:250 | the schedule is in ascending order of time and a permutation of the emitted events |
| Schedule.EmittedNamesUnique | athan.py:222-248 | no two emitted events share a label |
| Schedule.EmittedMatchesRules | athan.py:222-248 | an event is emitted iff one of the builder's rules produces it |
| Schedule.BuiltOrder | athan.py:222-250 | the schedule is sorted by time, is a permutation of the emitted events, and keeps emission order among events at the same time |
| Schedule.BuiltContents | athan.py:222-250 | an event is in the schedule iff a rule produces it; each occurs once; a label determines its event |
| Schedule.PrayerCallRule | athan.py:222-227 | a call event labelled with a prayer exists iff the prayer was fetched, occurs once, at the prayer's time today, of kind play with the prayer's recording |
| Schedule.QuranPreRule | athan.py:229-232 | `<p>-QuranPre` exists iff p was fetched, p is not Isha, and not (p is Asr on a Friday); it is of kind quran, 300 s before the prayer, with no payload |
| Schedule.QuranPreLabelIsOwn | athan.py:229-232 | the Quran pre-clip label of a prayer is neither a prayer name nor one of the three extra labels |
| Schedule.ExtraLabelsAreOwn | athan.py:234-248 | the three extra labels are not prayer names, not Quran pre-clip labels of any prayer, and pairwise distinct |
| Schedule.IshaPreRule | athan.py:234-238 | `Isha-Pre` exists iff Isha was fetched and its file exists; it plays the evening athkar 1167 s before Isha |
| Schedule.MorningAthkarRule | athan.py:240-242 | `Morning-Athkar` always exists, at 06:30 today, playing the morning athkar |
| Schedule.KahfPreAsrRule | athan.py:244-248 | `Kahf-PreAsr` exists iff it is Friday and Asr was fetched; it plays al-Kahf 31 minutes before Asr |
| Refresh.ShouldRefresh | athan.py:253-260 | no refresh iff the last refresh was today and (the after-02:00 refresh was done or it is before 02:00) |
| Refresh.Rebuilt | athan.py:326-327 | after a rebuild no refresh is due at the poll's instant iff the date read after the fetch is the date of that instant |
| Refresh.Settle | athan.py:350-351 | the end-of-poll update keeps the refresh date, never clears the flag, raises it only at or after 02:00, and leaves no refresh due at the instant when the refresh date is its date |
| Refresh.Poll | athan.py:322-351 | after a poll whose rebuild, if due, succeeds on the poll's date, no refresh is due at that instant, and the refresh date is the poll's date unless nothing changed |
| Refresh.SettleIsRedundant | athan.py:350-351 | the end-of-poll update changes nothing after a rebuild, nor when no refresh was due |
| Refresh.RebuildCount | athan.py:322-334 | the number of rebuilds a run of polls performs when every rebuild succeeds, at most one per poll |
| Refresh.NoRebuildAfterSettled | athan.py:253-260 | once the after-02:00 refresh is done, no poll that day rebuilds |
| Refresh.OneRebuildPastTwo | athan.py:253-260 | from a pre-02:00 refresh, the polls of that day rebuild exactly once if some poll is at or past 02:00, else never |
| Refresh.MidnightStraddle | athan.py:322-327 | a rebuild from a poll at or after 02:00 whose fetch returns on the next date records that date with the flag set, and no poll of that date rebuilds |
| Engine.KeyOf | athan.py:337 | the fired key carries the event's label and the date and time of day that recombine to its instant |
| Engine.Due | athan.py:340-341 | an event is due iff now lies in the 60 seconds starting at its instant |
| Engine.KeyOfInjective | athan.py:337 | two events have the same fired key iff they have the same label and instant |
| Engine.Pass | athan.py:336-348 | events fired are in the schedule, due (0 <= now - t < 60) and not already fired, with distinct keys; afterwards a schedule key is fired iff it was before or is due |
| Engine.PassInOrder | athan.py:336-348 | a pass fires events in schedule order: the fired list is a subsequence of the schedule |
| Engine.PassIdempotent | athan.py:336-348 | a second firing pass at the same instant fires nothing |
| Engine.FireDue | athan.py:336-348 | the firing loop fires and records exactly what `Pass` says |
| Engine.Step | athan.py:319-353 | every event a tick fires is due and in the resulting schedule; the fired set afterwards is the carried-in one (empty after a successful rebuild) plus exactly the keys of the events fired; a tick with no refresh due keeps the schedule and refresh state |
| Engine.StepKeepsGenerational | athan.py:319-353 | a tick keeps every fired key among the keys of the current schedule |
| Engine.RebuildOutcome | athan.py:322-334 | with a refresh due, a failed fetch changes nothing and fires nothing; a successful one installs the schedule built for the post-fetch date, clears the fired set before firing, records that date and the 02:00 flag of the poll's instant, and leaves no refresh due iff that date is the poll's |
| Engine.NoRebuildOnceSettled | athan.py:322-351 | once today's after-02:00 refresh is done, a tick keeps the schedule and refresh state and only adds to the fired set |
| Engine.TickFiresDueEvents | athan.py:336-348 | unless a due refresh failed, an event of the resulting schedule whose key was not fired in this generation is fired after the tick iff it is due, and the fired set grows by exactly the keys of the events sent out; every event fired is in the schedule, new and due, and no key fires twice |
| Engine.TickIdempotent | athan.py:319-353 | a second tick at the same instant fires nothing, when the first was not a failed rebuild nor a rebuild whose fetch returned on a later date |
| Engine.After2amFlagMeansRebuilt | athan.py:322-351 | after a tick the after-02:00 flag is set only if the refresh state is unchanged, or this tick rebuilt successfully from a poll at or after 02:00, recording the post-fetch date with the flag |
| Engine.RefireAcrossRebuild | athan.py:322-348 | on a successful rebuild, a due event of the new schedule fires even though its key was already fired |
| Engine.StepOnce | athan.py:319-353 | corrected tick: every event fired is due, in the schedule and not fired before; its key is remembered; fired keys of events still scheduled are kept across a rebuild; unless a due rebuild failed, an event of the schedule with a new key is fired iff it is due |
| Engine.StepOnceNeverRefires | athan.py:319-353 | with the corrected tick, an event fired by one tick does not fire in the next, whatever the next tick rebuilds |
| Engine.StepOnceAgrees | athan.py:319-353 | the corrected tick equals the source's unless a rebuild finds an already fired key in the new schedule |
| Engine.StepOnceKeepsGenerational | athan.py:319-353 | the corrected tick keeps every fired key among the keys of the current schedule |
| Engine.EventEngine.constructor | athan.py:300-303 | the daemon starts with an empty schedule, nothing fired and no refresh |
| Engine.EventEngine.InitialFetch | athan.py:305-317 | the startup fetch installs the built schedule and refresh state iff the fetch succeeds, and otherwise leaves the state unchanged |
| Engine.EventEngine.Tick | athan.py:319-353 | a poll updates the schedule, fired set and refresh state as `Step` does, and reports the events it fired |
| Engine.EventEngine.TickOnce | athan.py:319-353 | the corrected poll updates the state as `StepOnce` does and keeps every fired key among the current schedule's keys |
| Segment.WindowPlays | athan.py:128-143 | the plays of a window are empty iff the window is not positive, and the first starts at the start offset |
| Segment.WindowPlaysShape | athan.py:128-143 | the plays last exactly the window; each lies within the file; every play after the first starts at 0; every play but the last runs to the end of the file |
| Segment.StopsAtStartPlusWindow | athan.py:128-143 | playback stops at (start + window) mod duration |
| Segment.ResumeOnlyFromZero | athan.py:103-105 | the saved offset equals the stop position iff the session started at offset 0 |
| Segment.PlayUntil | athan.py:128-143 | the loop performs exactly the window's plays and ends at the window's end with offset 0, or does nothing when the window is empty |
| Segment.RunWindow | athan.py:121-147 | the window plays as `WindowPlays` says, and the offset saved is window mod duration, in [0, duration) |
| Segment.Loaded | athan.py:81-88 | the loaded offset is 0 iff nothing or 0 is stored, and otherwise it is the stored value |
| Segment.OffsetStore.Load | athan.py:81-88 | loading yields the stored offset, or 0 when it is absent or unreadable |
| Segment.OffsetStore.Save | athan.py:90-95 | saving stores the offset |
| Segment.OffsetStore.Reset | athan.py:97-99 | after a reset the next load yields 0 |
| Segment.PlayQuranSegment | athan.py:101-152 | with an unknown or non-positive duration nothing plays and nothing is saved; otherwise the window starts at load mod duration and 600 mod duration is saved |
| Segment.WindowExamples | athan.py:121-147 | a 400 s file in a 600 s window plays once plus 200 s, saving 200; a 600 s file plays once, saving 0; a session from 100 s stops at 300 s |
| Board.Rank | ui.py:16 | a name ranks below 5 iff it is a prayer, and then it is at that position of the prayer list |
| Board.BoardFor | ui.py:59-66 | the board has no more entries than listed prayers, and each entry is a fetched prayer at its fetched time today |
| Board.BoardForRanks | ui.py:59-66 | the entries kept from a prefix of the prayers are in increasing prayer order, at their fetched times today, exactly the fetched prayers of that prefix |
| Board.BuildSchedule | ui.py:59-66 | the filling loop yields the fetched prayers of the prayer list, in order |
| Board.BoardContents | ui.py:59-66 | the board holds exactly the fetched prayers, once each, in prayer order, each at its fetched time today |
| Board.Ordered | ui.py:74 | the ordered board is a permutation of the board, sorted by time |
| Board.SelectCurrent | ui.py:71-89 | before every entry, current is Isha and next the earliest entry; otherwise current is the last entry at or before now, and next the entry after it or none |
| Board.CurrentAndNext | ui.py:68-89 | the same, for the board sorted by time |
| Board.BoundaryIsLast | ui.py:74-81 | in time order, an entry at or before now whose successor is after now is the last such entry, so current is unique |
| Board.OneCaseApplies | ui.py:75-87 | unless now is before every entry, an entry at or before now with no successor at or before now exists |
| Board.Countdown | ui.py:107-108 | hours and minutes satisfy 0 <= minutes < 60 and hours*3600 + minutes*60 <= s < that + 60 |
| Board.Digits | ui.py:109 | a decimal rendering is a non-empty string of digits with no leading zero |
| Board.DigitsRoundTrip | ui.py:109 | reading back the decimal rendering of n gives n |
| Board.TwoDigits | ui.py:109 | minutes render as exactly two digits that read back as the minutes |
| Board.SignedDigits | ui.py:109 | the hours render with a leading minus iff negative, followed by digits that read back as the magnitude |
| Board.TimeUntil | ui.py:104-111 | the text is `--:--` iff there is no next prayer; otherwise it ends in a colon and two characters, the last a digit |
| Board.TimeUntilReadsBack | ui.py:104-111 | with no next prayer the text is `--:--`; otherwise it is `H:MM`, whose parts read back as the whole hours and remaining minutes until the next prayer |

## Left out

- Scraping the mosque page (`fetch_epic_adhaan_times` in both files). Its result is an input: a map from prayer name to time of day, or no map when the fetch fails.
- Audio playback (`play_sound`, pygame, mutagen), `stop_all_sounds` and the stop flag, push notifications (`send_notification` posts to ntfy.sh), and `socketio.emit`. Firing is an output list of events.
- The threads (`_play_loop`, `key_watcher`), the console command loop, the Flask routes, `render_template`, the Hijri date and the board's page image.
- The real clock, `date.today()` and `time.sleep`. The poll's instant and the date read after a fetch are parameters. The 60 s and 300 s retry sleeps appear only as "state unchanged".
- The JSON file behind the offset store. The source opens it with mode "w". If the open itself fails, the old file and its value stay. If the write fails after the open has emptied the file, an empty or partial file is left and the next load gives 0. The model's save always succeeds.
- Float seconds and microseconds. Instants and offsets are whole seconds, and `19.45*60` is exactly 1167.0 s, so the lead is 1167 s. Local-time irregularities such as daylight-saving changes are not modelled.
- The startup path-existence warnings and all logging.
- The characters of the clock text. `ClockText` holds its hour, minute and AM/PM fields. Zero padding, the space before `%p` and letter case are not modelled. The source keeps the scraped "5:30AM" and shows it as "05:30 AM".
- A time text that `strptime` rejects makes the whole build raise (athan.py:224). The model folds that into a failed fetch: the source is `None`.
- Schedule.BuildTodaySchedule: takes `date.today()` once. The source reads it again at each use, which differs only when a build straddles midnight.
- Engine.EventEngine.InitialFetch: takes the refresh date and the post-02:00 flag from one instant. The source reads `date.today()` and then `datetime.now()` (athan.py:309-310), both after the fetch; they differ only across midnight.
- Engine.TickIdempotent: does not cover a first tick whose rebuild fetch returned on a later date. The second tick then finds a refresh due again, rebuilds with an empty fired set, and can fire again.
- Refresh.Poll, Refresh.RebuildCount: assume each rebuild's fetch returns on the poll's date. Refresh.MidnightStraddle covers the other case.
- Board.CurrentAndNext: requires a non-empty board. With no prayer time on the page the source raises IndexError at ui.py:87; the model does not cover that case.
- Board.CurrentAndNext: reads the clock once. The page reads `datetime.now()` twice, so its countdown can be a fraction of a second stale.
- Board.TimeUntilReadsBack: states the reading back only for a next prayer not in the past. A next time in the past cannot arise from one reading of the clock. For that case the model renders Python's negative floor-division hours, but no lemma covers it.

## Findings

| source | as written | input that shows it | evidently intended | confidence | as-written member | corrected member |
|---|---|---|---|---|---|---|
| athan.py:325 | every successful rebuild clears the fired set, the post-02:00 rebuild of the same day's schedule included | Isha at 2:19AM, so Isha-Pre is at 01:59:33: the poll at 01:59:35 fires it; the poll at 02:00:00 rebuilds the same schedule with an empty fired set and fires it again, 27 s into its window | each event fires once; a rebuild keeps the fired keys of events that are still scheduled | medium; not executed | Engine.RefireAcrossRebuild | Engine.StepOnce |

`Engine.Step` and `Engine.EventEngine.Tick` model the loop as written.
`Engine.StepOnce` and `Engine.EventEngine.TickOnce` are the corrected loop.
`Engine.StepOnceNeverRefires` proves the intended property about them, and
`Engine.StepOnceAgrees` shows they differ from the source only in this case.
