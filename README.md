# alfred-calendar: the event lister

`list_events.py` is the script behind an Alfred launcher workflow that offers
the conference links of the calendar events happening now. It takes the event
UIDs that an AppleScript helper prints, finds each
event's `.ics` file in the calendar store, reads the event, and keeps the
events that have a conference URL and start within 20 minutes (before or
after) of the current time. Each kept event becomes one launcher result item
carrying its summary, start time and URL; when no event is kept, the feedback
holds a single "No Results" placeholder.

This project models that script in Dafny:

- `PythonStrings`: the Python `str` operations the script relies on —
  `replace(c, '')`, `strip()` with Python's whitespace set and `split(sep)` —
  with `sep.join(parts)` defined as the inverse of split so that the round
  trip can be stated and proved.
- `EventUids`: `get_event_uids`, from the helper's printed text to the UID list.
- `EventPaths`: `get_event_path`, from a UID to its `.ics` file name and the
  first path the filesystem search finds for it.
- `TimeWindow`: `is_time_within_range`, the inclusive ±20-minute window.
- `ListEvents`: `main` — the loop over the UIDs, the filter, the result items
  and the placeholder — as the method `BuildFeedback` (with its loop in
  `FeedbackFor`), proved equal to the specification function `Run`, whose
  properties are proved as lemmas.

The outside world enters as parameters: the helper's decoded output as a
string; the filesystem search as a function from an event file name to the
list of matching paths; reading a file and parsing the event as a function
from a path to an `Event` record (summary, optional conference URL, start
instant); the current time as an integer instant in microseconds; and the
`strftime('%-I:%M%p').lower()` rendering of a start time as a function.

When no file is found for a UID, `get_event_path` returns `None` and `main`
hands it to `open`, which raises; the script then prints nothing. The model
makes this an explicit outcome, `Failure(MissingEventFile(uid))` for the first
such UID. Skipping such a UID, as `get_event_path` returning `None` suggests,
would let the other events' results through; the model follows the code (see
"## Findings").

## Model

| member | source | states |
|---|---|---|
| PythonStrings.RemoveChar | list_events.py:25 | `replace(c, '')`: every occurrence of c deleted; stated by RemoveCharMultiset (what is kept) and RemoveCharConcat (in what order) |
| PythonStrings.RemoveCharMultiset | list_events.py:25 | exactly the occurrences of c are deleted: every other character is kept as often as it occurs, none of c is left, and the text never grows |
| PythonStrings.RemoveCharConcat | list_events.py:25 | removal works piece by piece: removing from a concatenation is the concatenation of the removals, so order is kept |
| PythonStrings.RemoveCharAbsent | list_events.py:25 | text without c is returned unchanged |
| PythonStrings.RemoveCharIdempotent | list_events.py:34 | removing a character twice is the same as removing it once |
| PythonStrings.TrimStart | list_events.py:25 | the left strip is a suffix of the text, what it drops is all whitespace, and it does not start with whitespace |
| PythonStrings.TrimEnd | list_events.py:25 | the right strip is a prefix of the text, what it drops is all whitespace, and it does not end with whitespace |
| PythonStrings.Strip | list_events.py:25 | `strip()` never lengthens the text, is empty exactly when the text is blank, and leaves no whitespace at either end |
| PythonStrings.StripUnchanged | list_events.py:25 | text without whitespace at its ends is its own strip |
| PythonStrings.StripKeepsAbsent | list_events.py:25 | stripping brings in no character that was not there |
| PythonStrings.Split | list_events.py:25 | `split(sep)` gives at least one piece, no piece holds sep, and the pieces joined with sep give the text back |
| PythonStrings.SplitKeepsAbsent | list_events.py:25 | no piece of a split holds a character the text lacks |
| PythonStrings.JoinKeepsAbsent | list_events.py:25 | a join holds no character that neither the parts nor the separator hold |
| PythonStrings.SplitNoSeparator | list_events.py:25 | text without the separator splits into itself alone |
| PythonStrings.SplitAtSeparator | list_events.py:25 | a split stops at the first separator and continues with the rest |
| PythonStrings.SplitJoin | list_events.py:25 | splitting the join of separator-free parts gives the parts back |
| EventUids.Cleaned | list_events.py:25 | the text after `replace('.', '').strip()` holds no '.' and has no whitespace at either end |
| EventUids.GetEventUids | list_events.py:20-30 | the UID list is never the single empty UID; its other properties are GetEventUidsProperties and GetEventUidsOfJoin |
| EventUids.GetEventUidsProperties | list_events.py:20-30 | when not empty, the UIDs joined with ',' give back the dot-free, stripped output; no UID holds '.' or ','; it is empty exactly when the output was only dots and whitespace |
| EventUids.BlankAfterDotRemoval | list_events.py:25-28 | the output is blank once dots are removed exactly when it held only dots and whitespace |
| EventUids.GetEventUidsOfJoin | list_events.py:20-30 | round trip: an output made by joining dot-free, comma-free UIDs with ',' (unpadded, and not the single empty UID; the empty list included) decodes to exactly those UIDs |
| EventUids.CleanedOfJoin | list_events.py:25 | such a joined output is left unchanged by dot removal and stripping |
| EventUids.GetEventUidsOfSplit | list_events.py:25-30 | on clean text whose split is not a single empty piece, the UIDs are that split |
| EventPaths.EventFilename | list_events.py:34-35 | the file name ends in `.ics` and its stem holds no '.' |
| EventPaths.EventFilenameOfStem | list_events.py:34-35 | inverse: every `.ics` name with a dot-free stem is the file name of its stem |
| EventPaths.SameEventFile | list_events.py:34-35 | two UIDs share a file name exactly when they agree once dots are removed |
| EventPaths.EventFilenameNormalized | list_events.py:34-35 | normalising an already normalised UID changes nothing |
| EventPaths.GetEventPath | list_events.py:36-41 | the path is None exactly when the search finds nothing, and otherwise it is the first match |
| EventPaths.GetEventPathIgnoresDots | list_events.py:34-41 | UIDs that differ only in dots are looked up identically |
| TimeWindow.IsTimeWithinRange | list_events.py:49-57 | true exactly when now is at most 20 minutes away from the event start, either way |
| TimeWindow.WithinRangeSymmetric | list_events.py:49-57 | the window test is symmetric in the event start and now |
| TimeWindow.WindowBounds | list_events.py:17 | both ends, start ± 20 minutes, are inside and the instants one step beyond are outside |
| TimeWindow.WindowIsInterval | list_events.py:49-57 | every instant between two instants of the window is in it |
| ListEvents.HasConferenceUrl | list_events.py:69-70 | Python's truth value of `event.conference_url`: present and not empty; stated through QualifyingMembers and ResultItemFields |
| ListEvents.Qualifies | list_events.py:69-72 | an event passes both `continue` tests: it has a conference URL and starts within the window; QualifyingMembers states that exactly these events are kept |
| ListEvents.ItemFor | list_events.py:73-83 | the result item of one event; its fields are stated by ResultItemFields |
| ListEvents.Qualifying | list_events.py:66-72 | filtering never keeps more events than it is given |
| ListEvents.QualifyingAppend | list_events.py:66-72 | the events kept from a concatenation are those kept from each part, in order |
| ListEvents.QualifyingMembers | list_events.py:69-72 | an event is kept exactly when it is one of the events, has a non-empty conference URL and starts within the window |
| ListEvents.QualifyingCount | list_events.py:69-72 | each qualifying event is kept as often as it occurs, and no other event is kept |
| ListEvents.ItemsFor | list_events.py:73-84 | one item per kept event |
| ListEvents.ItemsForAt | list_events.py:73-84 | item i is the item built from the i-th kept event |
| ListEvents.ItemsForConcat | list_events.py:66-84 | the items of a concatenation are the items of its parts, in order |
| ListEvents.Items | list_events.py:86-91 | the items are never empty; they are the single "No Results" placeholder exactly when no event qualifies, and otherwise every item is an event result |
| ListEvents.ResultItemsStep | list_events.py:66-84 | one more event appends its item when it qualifies and nothing otherwise |
| ListEvents.ResultItemFields | list_events.py:73-83 | each result comes from a qualifying event: title and `event_summary` are its summary; `copy`, `largetype` and `event_conference_url` are its non-empty URL; the subtitle renders its start |
| ListEvents.ResolveEvents | list_events.py:66-68 | reading the events of the UIDs in order, failing at the first UID without a file; stated by ResolveAllFound, ResolveFirstMissing, ResolveSomeMissing and ResolveStops |
| ListEvents.ResolveStep | list_events.py:66-68 | reading one more UID either fails on its missing file or appends the event read from its first path |
| ListEvents.ResolveAllFound | list_events.py:66-68 | when every UID has a file, reading succeeds with one event per UID, read from that UID's path |
| ListEvents.ResolveFirstMissing | list_events.py:66-68 | when the k-th UID is the first without a file, the run fails naming it |
| ListEvents.ResolveSomeMissing | list_events.py:66-68 | when some UID has no file, reading fails |
| ListEvents.ResolveStops | list_events.py:66-68 | once reading has failed, later UIDs change nothing |
| ListEvents.ResolveSucceedsIffAllFound | list_events.py:66-68 | reading succeeds exactly when every UID has a file |
| ListEvents.RunOn | list_events.py:66-91 | a run over given UIDs: the reading error, or the feedback items of the events read; FeedbackFor is proved equal to it and Items states its items |
| ListEvents.Run | list_events.py:60-91 | a run over the UIDs the helper printed; BuildFeedback is proved equal to it and RunSucceedsIffAllFound states when it fails |
| ListEvents.RunSucceedsIffAllFound | list_events.py:60-68 | a run produces feedback exactly when every UID the helper printed has a file |
| ListEvents.FoundUids | list_events.py:67-68 | skipping UIDs without a file never adds UIDs |
| ListEvents.FoundUidsMembers | list_events.py:67-68 | the UIDs kept are exactly those with a file |
| ListEvents.FoundUidsAll | list_events.py:67-68 | when every UID has a file, none is skipped |
| ListEvents.RunSkippingMissing | list_events.py:67-68 | the corrected run that skips UIDs without a file; stated by RunSkippingMissingSucceeds and RunSkippingMissingAgrees |
| ListEvents.RunSkippingMissingSucceeds | list_events.py:67-68 | the run that skips missing files always produces feedback |
| ListEvents.RunSkippingMissingAgrees | list_events.py:60-91 | wherever the run as written produces feedback, skipping missing files produces the same feedback |
| ListEvents.MissingFileFailsRun | list_events.py:44-46 | as written, one printed UID without a file makes the run fail, while skipping it produces feedback |
| ListEvents.BuildFeedback | list_events.py:60-91 | `main` produces exactly what `Run` specifies: the error for the first UID without a file, or the feedback items for the events read |
| ListEvents.FeedbackFor | list_events.py:66-91 | the loop with its `continue` filters and the placeholder produces exactly `RunOn` of the UIDs |

## Left out

- Running `osascript` and decoding its bytes as UTF-8: the decoded text is a parameter.
- The glob under `~/Library/Calendars` and the path joining: the search is a function from the file name to its list of matches.
- Reading the file and `Event(...)`: `event.py` (the iCalendar parser, timezone resolution and conference-link extraction) is not part of this model; the parsed event is the result of a parameter function, and exceptions raised while parsing are not modelled.
- `datetime.now().astimezone()`: the script reads the clock once per event that has a conference URL; the model uses one `now` for the whole run, so a run that crosses a window edge while it loops is not modelled.
- Timezone-aware datetime arithmetic: instants are integers counting microseconds, the resolution of Python's `datetime`.
- `strftime('%-I:%M%p').lower()`: the subtitle is a parameter function of the start instant.
- `json.dumps` and `print`: the model returns the feedback value; its JSON rendering is not modelled.
- The module-level constant `CALENDAR_DB_DIR` and `tests/__init__.py`, which only set up paths and environment values.
- PythonStrings.Strip: states emptiness and the absence of whitespace at the ends; that only whitespace is removed, and only at the ends, is stated by TrimStart and TrimEnd rather than by Strip itself.

## Findings

| source | as written | input that shows it | evidently intended | confidence | as-written member | corrected member |
|---|---|---|---|---|---|---|
| list_events.py:67-68 | `get_event_path` returns `None` when no file matches, and `main` passes that straight to `open`, which raises, so nothing at all is printed | the helper prints `A,B`; the file of A holds an event with a conference URL that starts now; no file matches B | skip B and show A's result, as `get_event_path` returning `None` rather than raising suggests (proved: RunSkippingMissingSucceeds, RunSkippingMissingAgrees) | medium, not executed | ListEvents.MissingFileFailsRun | ListEvents.RunSkippingMissing |
