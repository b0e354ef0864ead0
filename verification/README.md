# PASAT trial session in Dafny

This project is a Dafny model of the core of a Paced Auditory Serial Addition Test (PASAT) program. A player thread reads out random numbers at a fixed interval. After each number, the subject answers with the sum of that number and the one before it. They answer either with one of twenty answer buttons or by typing digits and pressing Q. The window records one result per interval:

- `C` (correct) with a reaction time,
- `I` (incorrect) with 0,
- `N` (not answered) with 0.

At the end, a summary is shown.

Two revisions of the program are modelled side by side:

- main.py with threads.py and helpers.py, the current revision;
- PASAT.py, an older single-file revision.

The differences the model covers:

- **Timestamp.** The current thread stamps a number before its playback; the older one stamps it after.
- **Padding number.** The current thread sends an extra `0` after the last number, so the last interval is scored like the others. The older one does not.
- **Overrun.** When a playback outlasts the interval, the current thread waits no further (threads.py:65). The older one passes a negative duration to `time.sleep` (PASAT.py:87), which raises out of `run`, so `finished` is never emitted.
- **Reaction times.** The current revision rounds them to tenths of a second; the older one keeps them raw.
- **Mean reaction time.** The current revision uses `non_zero_mean`, which gives 0 when no time is non-zero. The older one takes numpy's mean of the non-zero times, which has no value then.
- **Drawing the numbers.** The current revision draws `NUMBERS_PER_TRIAL` numbers in `_start` (main.py:370-372). The older one draws ten once, when the window is built (PASAT.py:142-144).
- **Ending a trial.** The current revision disables Start in `_start` and clears `trial_started` in `_finished`. The older one does neither, so its Start button stays enabled but a second start changes nothing.
- **Digits.** The older revision always shows Persian digits.

The modules follow the program's structure:

- `Wrappers` (wrappers.dfy): `Option` and `Result`.
- `Numerals` (numerals.dfy): `str(n)` and `int(s)` on decimal numerals. It covers the ASCII, Arabic-Indic and Extended Arabic-Indic digits, since Python's `int` reads all of them.
- `DigitScript` (digit_script.dfy): `en_to_ar_num` and `enToArNumb`, the per-character table that writes numbers in Persian digits, and the `_n` display hook.
- `Stats` (stats.dfy): `non_zero_mean` and the summary `_finished` computes in each revision.
- `Player` (player.dfy): the signals the player threads emit, as pure traces.
  - `PlayNumbersThread.run`/`stop` in threads.py, with its wait-tick arithmetic and pause polling.
  - `PlayDemoThread`.
  - The older `PlayNumbersThread.run`, which stops at the first playback longer than the interval, because `time.sleep` of a negative duration raises.
- `Window` (window.dfy): the window's trial state and its four handlers, folded over a sequence of events by `Run`. The handlers are `_update_number`, `_on_click_answer`, `keyPressEvent` and `_submit_answer`.
  - Per-interval lemmas say which answer an interval records: the first button click or Q press wins, otherwise the typed text is flushed when the next number arrives.
- `Trial` (trial.dfy): whole trials. A thread's trace is interleaved with the subject's input and run through the window.
  - With the padding number, a trial over n numbers records exactly n − 1 results.
  - Without it, the older revision records n − 2, or n − 1 if the last interval was answered explicitly.
  - A click after the padding number is still recorded, scored against `0 + last number`.
- `Launch` (launch.dfy): the preferences (`_save_preferences`), the draw of the numbers (`_start` in main.py, `__init__` in PASAT.py), and `_finished`'s effect on the window.

Time is an integer number of centiseconds. Python's `round(x, 1)` is modelled as half-to-even rounding to a multiple of 10, with ties decided on the exact decimal value (see `Window.RoundHalfEven` under "## Left out"). Key events carry Qt key codes: Backspace `0x01000003`, Q `0x51`, digits `0x30`–`0x39`. Randomness, audio playback lengths, pause durations and the clock are parameters.

## Model

| member | source | states |
|---|---|---|
| Numerals.ParseDecimalString | main.py:234 | `int` reads back what `str` wrote for a button label: `int(str(n)) == n` |
| Numerals.SameDigitsSameValue | main.py:484 | two numerals with digits of equal value, position by position, parse to the same number, whatever script each digit is in |
| DigitScript.EnToAr | helpers.py:11-31 | `en_to_ar_num` converts exactly when every character is in the table; the output then has one table character per input character, and otherwise the error names the first character the lookup fails on |
| DigitScript.EnToArNumb | PASAT.py:26-46 | the older loop over its own copy of the table computes the same result as `en_to_ar_num`, errors included |
| DigitScript.TableInjective | helpers.py:15-27 | no two table entries share an image, and the reverse table undoes every entry |
| DigitScript.RoundTrip | helpers.py:15-31 | reading a converted string back through the reverse table gives the original string |
| DigitScript.Distributes | helpers.py:28-31 | the conversion is a per-character map: a concatenation converts exactly when both parts do, to the concatenation of the parts' images |
| DigitScript.ConvertedNumeralKeepsValue | helpers.py:11-31 | an ASCII numeral always converts, and `int` reads the converted text as the same number |
| DigitScript.TableKeepsDigit | helpers.py:15-25 | each ASCII digit maps to a digit of the same value |
| DigitScript.Localise | helpers.py:32-43 | `_n` in English or Farsi keeps the length, yields a numeral, and keeps the value `int` reads |
| Stats.CountsPartition | main.py:513-515 | the C, I and N counts add up to the number of results |
| Stats.CountExtremes | main.py:511 | a count equals the length exactly when every result has that outcome, and is 0 exactly when none does |
| Stats.NonZero | helpers.py:50-53 | the entries `non_zero_mean` adds up are non-zero and no more than the list |
| Stats.NonZeroMeanLoop | helpers.py:44-57 | the one-pass sum-and-count loop returns the mean of the non-zero entries, or 0 when there are none |
| Stats.NonZeroConcat | helpers.py:50-53 | the non-zero filter distributes over concatenation |
| Stats.InsertZero | helpers.py:50-57 | inserting a 0 anywhere does not change `non_zero_mean` |
| Stats.DropZeros | helpers.py:50-57 | removing all zeros first changes neither the filtered list nor the mean |
| Stats.MeanBetween | helpers.py:44-57 | when the non-zero entries lie in [lo, hi], so does their mean |
| Stats.NonZeroWithin | helpers.py:50-53 | the filter keeps only entries from the original list's non-zero range |
| Stats.PercentBounds | main.py:511 | `100 * C / len` lies in [0, 100]; it is 100 exactly when all answers are correct and 0 exactly when none is |
| Stats.Tally | main.py:511-517 | the dialog's C, I and N values are `results.count` of each letter, and `Correct %` is `100 * (C / len)`; the counts partition the results |
| Stats.Finish | main.py:506-521 | `_finished` in main.py gives no summary exactly for an empty result list; otherwise the three counts and `Correct %` of the results, and `non_zero_mean` of the reaction times |
| Stats.LegacyFinish | PASAT.py:446-455 | `_finished` in PASAT.py gives no summary for an empty result list; otherwise the three counts and `Correct %` of the results, and the mean of the non-zero reaction times, which is undefined exactly when every reaction time is 0 |
| Stats.NoNonZero | helpers.py:54-57 | a list has no non-zero entry exactly when all its entries are 0 |
| Player.WaitTicks | threads.py:64-65 | the 10 ms wait ticks of `range(round(100 * (interval - length)))` nominally make up the rest of the interval, and are none when the playback overran: max(0, 100·interval − length) |
| Player.WaitCountsRunningPolls | threads.py:65-68 | the remaining wait goes down by one per poll that found the thread running, down to 0 |
| Player.PausedPollsInvisible | threads.py:66-68 | a poll while paused consumes no tick: the wait resumes at the same tick |
| Player.Trace | threads.py:58-77 | the current thread emits every number once, in order, each stamped before its playback, then exactly one padding 0, then `finished` |
| Player.TraceSpacing | threads.py:61-68 | consecutive stamps are one interval apart, or one playback apart on an overrun, plus any paused time |
| Player.TraceDuration | threads.py:58-68 | with no pause and no overrun, number k is nominally stamped k intervals after the start |
| Player.LeadingWithin | PASAT.py:80-87 | the index of the first playback longer than the interval, or the count when there is none |
| Player.LegacyLoop | PASAT.py:80-87 | the older thread emits the numbers in order, each stamped after its playback, and stops after the first overrun |
| Player.LegacyLoopStops | PASAT.py:80-88 | the older loop completes exactly when no playback overruns; otherwise it has emitted the numbers up to and including the overrunning one |
| Player.LegacyTrace | PASAT.py:80-88 | the older thread emits `finished`, with no padding number, exactly when no playback overruns |
| Player.LegacyAbort | PASAT.py:87 | the older thread emits one signal more than the number of leading playbacks that fit the interval |
| Player.DemoTicks | threads.py:117 | a demo pair waits exactly `interval * 100` ticks, with no playback correction |
| Player.DemoTrace | threads.py:112-127 | the demo thread emits every pair in order, then exactly one (0, 0) padding pair, then `finished` |
| Player.DemoDuration | threads.py:112-120 | without pauses, demo pair k is nominally stamped k intervals after the start |
| Window.InitialValid | main.py:78-97 | the state `__init__` sets up satisfies the window invariant |
| Window.RoundHalfEven | main.py:481 | `round(x, 1)` of a non-negative duration is a whole tenth within half a tenth, ties on the exact decimal value going to the even tenth |
| Window.RoundToTenth | main.py:481 | `round(x, 1)` for any sign is a whole tenth within half a tenth, with the sign kept |
| Window.ReactionTime | main.py:481 | main.py stores the rounded duration and PASAT.py the raw one |
| Window.Score | main.py:481-496 | an empty answer is N; a numeral whose value is the sum of the last two numbers is C with the reaction time; any other answer is I; only C keeps a reaction time |
| Window.ReactionTimes | main.py:488-496 | `results` and `reaction_times` always have the same length and hold each record's outcome and time |
| Window.Submit | main.py:474-496 | `_submit_answer` appends exactly one record, scored against the last two numbers and measured from `time_presented`, and changes nothing else |
| Window.ButtonText | main.py:234 | an answer button's label is a numeral that `int` reads as the button's number, in either script |
| Window.OnClick | main.py:386-399 | a click is ignored before two numbers and after this interval's answer; otherwise it latches the interval and records the button's number |
| Window.DropLast | main.py:415-416 | Backspace removes exactly the last typed character |
| Window.TypeKey | main.py:422-431 | a digit key adds one digit of the key's value while fewer than two are typed; other keys change nothing |
| Window.OnKey | main.py:401-431 | keys are ignored before two numbers; Backspace drops a character; Q records exactly when text is typed and the interval has no answer yet, and otherwise changes nothing; other keys only type |
| Window.OnNumber | main.py:434-463 | a new number first scores the pending answer, if the interval has none, against the previous two numbers and the previous stamp; then it clears the interval and appends the number |
| Window.Step | main.py:386-463 | every handler keeps the window invariant, appends at most one record, and leaves earlier records alone; only a number extends `played_numbers` |
| Window.PlayedAreNumbers | main.py:461 | `played_numbers` is exactly the delivered numbers, in order, padding included |
| Window.RecordsOnlyGrow | main.py:488-496 | records are only ever appended, at most one per event |
| Window.StepKeepsScored | main.py:481-496 | every handler keeps the records well scored: non-zero reaction times only for C, and whole tenths in main.py |
| Window.RunKeepsScored | main.py:481-496 | a whole run keeps the records well scored: only correct answers carry a non-zero reaction time, and in main.py every time is a whole tenth |
| Window.IgnoredBeforeTwoNumbers | main.py:391-413 | before the second number, clicks and keys change nothing |
| Window.Edit | main.py:414-431 | keyboard editing keeps the typed text a numeral of at most two digits |
| Window.FirstCommit | main.py:484 | whatever answer an interval commits, by button or by Q, is a non-empty numeral, so `int` never raises on it |
| Window.AnsweredIntervalOnlyEdits | main.py:396-421 | once an interval is answered, further clicks and keys only edit the typed text and record nothing |
| Window.LatchIsFirstCommit | main.py:396-421 | the state reached in an open interval is that interval's first committed answer recorded, with the typed text edited |
| Window.CommittedRecords | main.py:396-421 | an interval's input commits at most one record |
| Window.ClickCommits | main.py:393-399 | a single click in an open interval commits the button's number, scored against the interval's sum |
| Window.LatchedRecords | main.py:396-421 | an open interval adds exactly its committed record, if any, to the records |
| Window.NumberAfterAnswer | main.py:448-453 | after an answered interval the next number flushes nothing; it only clears the interval |
| Window.NumberFlushesTyped | main.py:448-449 | after an unanswered interval the next number records the typed text, possibly empty, measured up to that number's stamp |
| Window.IntervalClosed | main.py:448-463 | an interval closed by a number records exactly one result: the first committed answer, or else the text typed when the number arrived |
| Trial.ClosedRecords | main.py:448-463 | a trial over n delivered numbers closes n − 2 intervals |
| Trial.WholeRun | main.py:434-463 | the window after a trial is the closed intervals' records plus the open last interval |
| Trial.TrialRecords | main.py:434-496 | the records of a trial are one per closed interval, in order, then the last interval's record if an answer was committed in it |
| Trial.TrialShape | PASAT.py:414-427 | a trial over at least two numbers records n − 1 results if the last interval committed an answer and n − 2 otherwise; every closed interval's record is in place |
| Trial.DeliveredPrefix | main.py:376-377 | `_update_number` receives exactly the numbers and stamps the thread emitted before `finished`, which goes to `_finished` instead |
| Trial.CurrentDelivery | threads.py:58-76 | the window receives the numbers, then the padding 0, each with the stamp taken before its playback |
| Trial.LegacyDelivery | PASAT.py:80-86 | the older window receives the numbers, each stamped after its playback |
| Trial.CurrentTrial | main.py:448-463 | a main.py trial over n numbers with no input after the padding records exactly n − 1 results; result j is interval j's answer scored against numbers j and j+1; a summary exists exactly when n ≥ 2 |
| Trial.LateClickRecords | main.py:393-399 | a click in the interval after the last number of a run is recorded as the final result |
| Trial.LateClick | main.py:393-399 | a click after main.py's padding number still records one more result, scored against `0 +` the last real number |
| Trial.LegacyTrial | PASAT.py:414-427 | a PASAT.py trial over n ≥ 2 numbers records n − 1 results if the last interval was answered explicitly and n − 2 otherwise; each closed interval is scored as in main.py |
| Launch.SavePreferences | main.py:535-539 | it raises exactly when a text is not a number; a count text that parses is stored even when the interval text then fails; a failing `int` leaves the interval and trial length untouched, and if the count text fails nothing changes; on success the trial length is numbers × interval |
| Launch.SaveShownValues | main.py:535-539 | saving the texts the spin boxes show stores exactly those values |
| Launch.PaddingAtTrialLength | main.py:539 | with consistent settings and no pause or overrun, the padding number nominally arrives `TRIAL_LENGTH` seconds after the first number |
| Launch.RandInt | main.py:372 | every draw lies in [1, 10] |
| Launch.EveryDrawPossible | main.py:371-372 | every sequence of values in [1, 10] is a possible draw |
| Launch.DrawNumbers | main.py:370-372 | the loop draws exactly `NUMBERS_PER_TRIAL` numbers, none for a non-positive count, each in [1, 10] |
| Launch.Start | main.py:367-384 | `_start` does nothing while a trial runs; otherwise it draws `NUMBERS_PER_TRIAL` numbers in [1, 10], hands them to the player with the interval, sets `trial_started` and disables Start |
| Launch.LegacyInit | PASAT.py:142-144 | PASAT.py's window draws ten numbers in [1, 10] when it is built, before any start |
| Launch.LegacyStart | PASAT.py:315-325 | PASAT.py's `_start` plays the numbers drawn at start-up, once |
| Launch.Finished | main.py:498-521 | `_finished` returns early, leaving the trial started, exactly when there are no results; otherwise it clears `trial_started` and shows the three counts, `Correct %` and `non_zero_mean` of the reaction times |
| Launch.FinishedEndsTrial | main.py:506-509 | a main.py trial over at least two numbers always has results, so `_finished` clears `trial_started`, while the Start button stays as it was |
| Launch.LegacyFinished | PASAT.py:438-455 | PASAT.py's `_finished` shows the same counts and `Correct %`, and the mean of the non-zero reaction times, undefined exactly when all are 0; it never clears `trial_started` |
| Launch.LegacyOneShot | PASAT.py:315-325 | after PASAT.py's first start, no `_finished` or later `_start` changes what is playing |

## Left out

- Threads, signal delivery across threads, `terminate()` and the busy-wait on `paused` are left out. Only the ordered traces the threads produce are modelled, with pauses as given durations and poll sequences.
- Handler latency is left out. Each event carries the time its handler runs, and the stamp a number arrives with is taken as the time `_update_number` handles it.
- `TimerThread` in both revisions is left out: it only updates a display label, accumulating floats.
- Audio playback and `resource_path` are left out. Playback lengths are inputs, in centiseconds.
- Floating point is left out. Times are integer centiseconds, so float effects in `round(x, 1)`, `time.time()` and numpy's `mean` are not modelled. Summary means are Dafny reals.
- Widgets, menus, dialogs and the registration form are left out. So are gettext message translation, the language-change restart loop, and the `print("Enter Pressed!")` in PASAT.py. `_n` is modelled only on ASCII numerals.
- `random.randint` is left out: a draw is given from outside as any natural number, mapped into [1, 10].
- CSV output and first-third/last-third statistics are left out: neither is implemented in the modelled files.
- Spin-box limits are left out. `Launch.SavePreferences` takes any text, and `ParseInt` accepts only digits: no sign and no surrounding whitespace, which Python's `int` allows and the spin boxes never produce.
- Input that arrives while a number is being delivered is left out. `Window.FirstCommit` reads an interval's input assuming it holds no number event, and the whole-trial lemmas require every subject's input list to be free of numbers (`AllUserOnly`).
- The two lists `results` and `reaction_times` are modelled as one list of records. They are always appended together (main.py:488-496), and `Results`/`ReactionTimes` project them back.
- The padding `0` is appended to `played_numbers` and answers stay allowed after it, so a late click is scored against `0 +` the last number (`Trial.LateClick`). `_finished` clears `trial_started` but not `allow_answer` (main.py:506-509), and `finished` follows the padding number at once (threads.py:72-77). So the extra record reaches `results`, but normally after the summary dialog was computed.
- `int` would raise on a malformed answer, but only numerals ever reach it: button labels and typed digits (`Window.ButtonText`, `Window.Edit`). Malformed answers are therefore not modelled.
- Trial.CurrentDelivery assumes every signal reaches the window. main.py calls `audio_thread.start()` before connecting `new_number` and `finished` (main.py:375-377), and the thread emits its first number at once (threads.py:62). A signal emitted before the connection would be lost, and the model does not cover that ordering.
- Trial.LegacyTrial requires every playback to fit the interval. An overrun stops the older thread, as shown by `Player.LegacyTrace`, and the window's state after an aborted run is not stated.
- The answer buttons are labelled 1 to 20 (main.py:232-234), but the model accepts a click on any natural number.
- Window.RoundHalfEven: ties are decided on the exact decimal number of centiseconds. Python's `round(x, 1)` rounds the nearest binary float, so its ties can go either way: `round(0.05, 1)` is 0.1 and `round(0.35, 1)` is 0.3, where the model gives 0.0 and 0.4.
- Player.WaitTicks: each `time.sleep(0.01)` (threads.py:68) is taken to last exactly one centisecond, with no loop overhead. `time.sleep` only sleeps at least as long as asked, so the real wait is longer and real stamps drift later than the nominal ones the model gives.
- Player.TraceDuration: the stamps are nominal, for the reason given under `Player.WaitTicks`.
- Player.DemoDuration: the stamps are nominal, for the reason given under `Player.WaitTicks`.
- Launch.PaddingAtTrialLength: the padding number's stamp is nominal, for the reason given under `Player.WaitTicks`.
- Window.RunKeepsScored: only one direction holds. A correct answer given within 5 cs of its number rounds to 0 in main.py, is recorded as C with time 0, and is left out of `non_zero_mean`.
- The demo session handling around `PlayDemoThread` is left out: it is not in the modelled files. Only the thread's trace is modelled.
