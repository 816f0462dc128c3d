# Monopoly Big Baller 5-roll drought monitor, modelled in Dafny

`monitor.py` looks at the rendered result rows of a casino-scores page for
Monopoly Big Baller, finds the most recent row that shows a roll of 5, works
out how many hours ago that roll happened, and sends one alert when that age
reaches 5 hours. It remembers the last drought id it alerted for in a small
state file so that it does not alert twice for the same id.

This project models the logic between the browser and the outside world:

- `PyStr` (`pystr.dfy`): the Python `str` operations the script relies on —
  `in`, `startswith`, `endswith`, `count`, `split("\n")` and `strip()` with
  Python's whitespace set — with their round trips (`Join`/`Split`) and the
  shape of `strip()`'s result.
- `Rows` (`rows.dfy`): the row classifier (a space-delimited 5), the
  date/time line picker (a loop that keeps the last month line and the last
  line with one `:`, both stripped), and the first-match row search with its
  early return.
- `Gate` (`gate.dfy`): the drought id `int(age)` (truncation toward zero),
  the gate as a pure step function, and the persisted state as a class whose
  `Check` method changes the stored id in place; ghost fields log the alerts
  sent and the saves made, and the class invariant says that consecutive
  alerts are for different whole hours.
- `Monitor` (`monitor.dfy`): one invocation of `main`, rows in, gate run.
- `Scenarios` (`scenarios.dfy`): worked rows — a row with a spaced 5, the
  same row whose fives sit inside numbers, a qualifying row without a time
  line that the search passes over, and the first alert of a drought.

The script classifies whole row texts by the spaces around a 5, takes the
first qualifying row in page order (not the latest stamp on the page), and
lets a stamp that does not parse escape as an exception. It keys the drought
on `int(age)`, the whole number of hours since the roll, and not on the time
of the roll itself. The stored id therefore changes every time the age enters
a new whole hour past the threshold, and the script alerts again for the same
drought once an hour. The model keeps this behaviour and proves it
(`Gate.NewHourAlertsAgain`).

## Model

| member | source | states |
|---|---|---|
| `PyStr.ContainsChar` | monitor.py:55 | `":" in part` holds exactly when the character `:` occurs in `part` |
| `PyStr.Count` | monitor.py:55 | `part.count(":")` is at most the length, and zero exactly when `:` does not occur |
| `PyStr.Split` | monitor.py:48 | `split("\n")` always gives at least one piece, even for an empty text |
| `PyStr.SplitShape` | monitor.py:48 | `split("\n")` gives one more piece than there are newlines, and no piece holds a newline |
| `PyStr.JoinSplit` | monitor.py:48 | joining the pieces of `split("\n")` with newlines gives the row text back |
| `PyStr.SplitJoin` | monitor.py:48 | splitting a newline-join of newline-free pieces gives the pieces back, so `split` loses nothing |
| `PyStr.StripStart` | monitor.py:54 | the leading-whitespace half of `strip()`: a suffix of the input, whitespace removed before it, not starting with whitespace |
| `PyStr.StripEnd` | monitor.py:54 | the trailing-whitespace half of `strip()`: a prefix of the input, whitespace removed after it, not ending with whitespace |
| `PyStr.Strip` | monitor.py:54-56 | `strip()` returns a contiguous part of the line, only whitespace lies around it, and it neither starts nor ends with whitespace |
| `PyStr.StripEmptyIffBlank` | monitor.py:57 | a stripped line is empty (falsy) exactly when the line is all whitespace |
| `PyStr.StripIdempotent` | monitor.py:54-56 | stripping a stripped line changes nothing |
| `Rows.HasFiveRollIff` | monitor.py:46 | a row qualifies exactly when it holds a '5' whose neighbours are spaces or text edges, with at least one neighbour |
| `Rows.EmbeddedFiveRejected` | monitor.py:46 | a row whose every '5' touches a non-space character (a digit of "15" or "50", a newline) does not qualify |
| `Rows.IsTimeLineIff` | monitor.py:55 | the time test is exactly "one ':' in the line"; the `in` test before `count` adds nothing |
| `Rows.LastIndex` | monitor.py:52-56 | the index of the last line that mentions a month (has one ':'): that line matches and no later line does; -1 when none matches |
| `Rows.LastSelectedIsLast` | monitor.py:52-56 | the picked date (time) is absent iff no line mentions a month (has one ':'), else the stripped form of the last matching line, so later matches overwrite earlier ones |
| `Rows.LastSelectedNonEmpty` | monitor.py:53-57 | a picked date or time is never the empty string, so the truthiness test at line 57 only checks that both were found |
| `Rows.PickDateTime` | monitor.py:50-56 | the line loop returns the last month line and, independently, the last one-colon line, both stripped |
| `Rows.OneLineGivesBoth` | monitor.py:53-56 | one line that mentions a month and has one ':' sets both the date and the time |
| `Rows.RowStampIff` | monitor.py:46-57 | a row gives a stamp iff it qualifies and has both a month line and a one-colon line; the stamp is the pair of last such lines |
| `Rows.FindFirstFiveRoll` | monitor.py:44-57 | the search returns nothing iff no row gives a stamp, else the lowest-index row that does, with its stamp |
| `Rows.HoursSinceLastFiveRoll` | monitor.py:44-64 | the age is absent iff no row gives a stamp, else the hours since the stamp of the first row that does (that row is unique) |
| `Gate.Trunc` | monitor.py:73 | `int(age)` truncates toward zero: within one below a non-negative age, within one above a negative one |
| `Gate.TruncAboveThreshold` | monitor.py:73-74 | past the threshold the drought id is the floor of the age and at least 5 |
| `Gate.Step` | monitor.py:73-77 | the stored id changes exactly when an alert is sent; an alert is sent exactly when an age of at least 5.0 is given whose floor is not the stored id, and it stores that floor |
| `Gate.NoAgeNoAlert` | monitor.py:69-71 | without an age there is no alert and the stored id is unchanged |
| `Gate.BelowThresholdNoAlert` | monitor.py:74 | an age under 5.0 sends nothing and changes nothing |
| `Gate.ThresholdInclusive` | monitor.py:74 | an age of exactly 5.0 alerts unless id 5 is already stored |
| `Gate.SameHourAlertsOnce` | monitor.py:73-76 | after an alert, a rerun in the same whole hour is silent and keeps the stored id |
| `Gate.NewHourAlertsAgain` | monitor.py:73-76 | after an alert, a rerun in another whole hour past the threshold alerts again and stores the new hour |
| `Gate.ReplaySameHour` | monitor.py:73-77 | any number of runs whose ages share one whole hour alert at most once, and never when that hour is stored |
| `Gate.DroughtState.constructor` | monitor.py:67 | the loaded state holds the stored id, with no alert sent and nothing saved |
| `Gate.DroughtState.Check` | monitor.py:69-77 | the stored id becomes the step's id, an alert (with its age) is logged and saved exactly when the step alerts, and the invariant is kept |
| `Monitor.RunOnce` | monitor.py:66-77 | with no qualifying row nothing changes; otherwise the stored id and the alert log are exactly what the gate step makes of the stored id and the age of the first row that gives a stamp, so one alert is sent for that age exactly when it is at least 5 and its whole hour is not stored |
| `Scenarios.StripUnpadded` | monitor.py:54-56 | a line without surrounding whitespace is its own stripped form |
| `Scenarios.RowWithFive` | monitor.py:44-57 | the row "14 Aug 2025 / 15:28 / 3 7 12 5 9" gives the stamp ("14 Aug 2025", "15:28") |
| `Scenarios.RowWithoutFive` | monitor.py:46 | the row "14 Aug 2025 / 15:28 / 13 27 42" gives no stamp: its fives are inside 2025 and 15 |
| `Scenarios.NoTimeRowHasFive` | monitor.py:46 | the one-line row "14 Aug 2025 5 9" qualifies |
| `Scenarios.RowWithoutTime` | monitor.py:48-57 | that row still gives no stamp, because none of its lines has a ':' |
| `Scenarios.SkipsRowWithoutTime` | monitor.py:44-57 | with that row first and the sample row second, the search takes the second row |
| `Scenarios.FirstAlertOfDrought` | monitor.py:73-76 | an age of 5.53 hours alerts and stores id 5 unless 5 is already stored |

## Left out

- The browser: launching it, loading the page, clicking a consent button and reading the rows with the `div:has-text('Aug')` locator (monitor.py:30-43, 61, 63). The rows arrive as a sequence of strings in page order; which elements the locator matches is not modelled.
- Loading and saving the JSON state file (monitor.py:10-17), including the fallback to an empty state when the file is missing or corrupt. The loaded state is the constructor's argument and a save is a count in a ghost field.
- The value under "last" is an integer or absent; a stored value of another JSON type (a string, a float) is not modelled. Other keys of the state object are never touched by the script and are not modelled.
- Sending the alert (monitor.py:19-27): whether it goes to the webhook or to standard output, and delivery failures. An alert is an entry in a ghost log.
- Parsing the stamp with `strptime` and subtracting it from the current time (monitor.py:58-60). These are the parameter `hoursSince`, a total function; in the code a stamp that does not parse raises an exception that ends the run, which the model does not capture (it neither skips such a row nor fails).
- Floating point: the age is a Dafny `real`, so float rounding, infinities and NaN are not modelled.
- The messages and prints (monitor.py:70, 72, 75).
