# shift-weaver roster sync, modelled in Dafny

shift-weaver reads a hospital term roster (a spreadsheet) and keeps one
person's shifts in a CalDAV calendar up to date. This project models its
core as pure Dafny functions and methods and proves properties about them.

The core has four parts:

- **Table location, openpyxl variant** (`ExcelLocator`). This finds the
  date row (the last row with at least seven date cells), the name column
  (the last column with at least six name-like strings) and the full names
  in a list of strings.
- **Table location, pandas variant** (`TermRoster`). This finds the date
  row as pandas `idxmax` does, meaning the first row with the most
  date-times. It picks the object-typed column with the most cells passing
  the name test and maps its values to their positions. Then it maps every
  full name found in a header to that header's row. When several headers
  hold a name, the last of them in the dictionary's key order wins; that
  order is the order of first occurrence in the column, not row order.
- **Shift factory** (`Shifts`). It normalises a label with strip and
  upper-case. A label from the start-time table gives a timed, ten-hour
  shift; any other label gives an all-day event. The summary comes from the
  label-meaning table. The UID is a name-based UUID of
  `SWSLHD:60316064:` followed by the formatted start.
- **Calendar update** (`Sync`). This covers the pure parts of
  `update_calendar`:
  - pairing dates with the user's labels and filtering the labels with the
    label test;
  - the date window;
  - the events to delete and the shifts to upload;
  - what the delete and upload loops do to the calendar when a call fails.

Supporting modules:

- `Text`: Python whitespace, ASCII `upper`, `strip`, substring.
- `Seqs`: counting, filtering, first arg-max.
- `Roster`: dates, cell values, the sheet as a grid.
- `NamePattern`: the two name regexes.

The regexes are modelled as predicates and functions over the string, and
their backtracking is worked out by hand. `TwoWordPrefix` is the anchored
`re.match` of the two-word pattern. `FullNames` is `finditer` of
`(?:P\s+){1,}P`. `FullNamesSound` proves that every match is a full name
and a substring of its input.

Some things come from outside and are parameters:

- `Shifts.Env` carries UUID version 5 (section 4.3 of RFC 4122) and the
  Australia/Sydney zone abbreviation as functions.
- `Sync.Execute` takes the outcome of every delete and upload call as
  input.
- The calendar's event listing is an input sequence.

The model follows the code as written. Some of its behaviours are easy to
miss:

- the openpyxl date row is the last row with at least seven date cells, not the first;
- the seven date cells need not be adjacent, although the docstring of
  `find_date_row` (src/excel.py:17-18) speaks of columns next to each other;
- an all-day label gets no duration;
- events are compared by value, not by UID;
- the date window spans every date of the date row, not only the user's shifts;
- uploads run one after another, and a failed upload is counted and skipped;
- a failed delete ends the run;
- in the pandas variant, a name in two headers takes the row of the header
  that comes later in first-occurrence order, so with the name column
  `John Smith`, `Jane Doe / John Smith`, `John Smith` the name `John Smith`
  is read from the shared row 1, not from row 2;
- a user whose row has dates above it but no kept label gets no shifts, and
  the run then deletes every event the calendar lists in the window.

Two slips in the code are listed under Findings: the name test
`name_matched` and the label test of `update_calendar`. Both tests are
parameters of the members that use them. Passed the test as written
(`TermRoster.NameMatched`, `Sync.KeepLabel`), `TermRoster.Parse` and
`Sync.Prepare` compute what the code computes. Passed the corrected test
(`TermRoster.NameMatchedIntended`, `Sync.KeepLabelIntended`), they compute
what the code evidently means.

## Model

| member | source | states |
|---|---|---|
| Text.StripShape | src/ui.py:220 | `strip()` gives the slice of its input that lies between leading and trailing whitespace only. The slice neither starts nor ends with whitespace, and it is empty exactly when the input is all whitespace |
| Text.StripIdempotent | src/shift.py:45 | stripping a label that is already stripped changes nothing, so the factory's second `strip()` is harmless |
| Seqs.FirstArgMax | src/term_roster_parser.py:106 | `idxmax` gives the position of a maximal element with every earlier element strictly smaller; an empty series gives no position |
| Seqs.FilterAppend | src/ui.py:282-302 | a filter keeps the order of its input: filtering a concatenation concatenates the filtered parts |
| NamePattern.SegmentsEnd | src/excel.py:69 | the greedy run of `[a-z]+` and `[-'][A-Z][a-z]*` segments after a capital: it is such a run, and it cannot be extended by another segment |
| NamePattern.TwoWordPrefixSplit | src/excel.py:43 | when the first tail class holds no whitespace, the greedy reading of the two-word pattern matches exactly when the string splits into a capital, a first tail, whitespace, a capital and a second tail ending on a word boundary |
| NamePattern.NameTestsSplit | src/term_roster_parser.py:59 | both first-word classes, `[a-z'-]` and `[a-z'+]`, match exactly when such a split exists |
| NamePattern.MatchFromSound | src/term_roster_parser.py:28-30 | the text a match of `(?:P\s+){1,}P` covers is two or more name parts separated by whitespace |
| NamePattern.FullNamesSound | src/excel.py:69-75 | every `finditer` match of the full-name pattern is a full name and occurs in the searched string |
| ExcelLocator.NonDateCellsDoNotReset | src/excel.py:25-31 | a non-date cell anywhere in a row does not change the row's date count, so seven non-adjacent date cells are enough |
| ExcelLocator.LastLineReaching | src/excel.py:24-32 | the scan returns 0 exactly when no line reaches the threshold; otherwise it returns the 1-based number of the last line that reaches it |
| ExcelLocator.FindDateRow | src/excel.py:12-32 | `find_date_row` gives 0 exactly when no row has seven date cells, else the 1-based number of the last row that has them |
| ExcelLocator.FindNameColumn | src/excel.py:36-54 | `find_name_column` gives no column exactly when no column has six string cells starting with two capitalised words, else the last such column |
| ExcelLocator.FilterNamesSound | src/excel.py:58-78 | every name `filter_names` returns is a full name that occurs in one of the input strings |
| ExcelLocator.FilterNamesAppend | src/excel.py:73-77 | the output is the matches of each string in turn: the names of a concatenation are the concatenated names |
| ExcelLocator.FilterNamesSkipsNoise | src/excel.py:76-77 | a string without a full name contributes nothing, wherever it stands in the list |
| TermRoster.HyphenatedFirstName | src/term_roster_parser.py:59 | `Mary-anne Lee` fails `name_matched` as written and passes it with the first word's class `[a-z'-]` |
| TermRoster.PlusFirstName | src/term_roster_parser.py:59 | `Jo+e Bloggs` passes `name_matched` as written and fails it with the first word's class `[a-z'-]` |
| TermRoster.NameColumnDiffers | src/term_roster_parser.py:117-120 | on the one-row sheet `Mary-anne Lee`, `Jo+e Bloggs` the parser as written reads names from the second column, and the corrected one from the first |
| TermRoster.FindDateRow | src/term_roster_parser.py:95-109 | the date row has the most date-times of any row and no earlier row has as many; there is no threshold; a frame without rows raises |
| TermRoster.BestObjectColumn | src/term_roster_parser.py:117-120 | for a given name test (`NameMatched` as written): the column chosen is object-typed, no object-typed column has more cells passing the test, and no earlier one has as many; with no object-typed column `idxmax` raises |
| TermRoster.Put | src/term_roster_parser.py:122 | storing a key in an insertion-ordered dict keeps the keys distinct; an existing key keeps its place and takes the new value, a new key goes last |
| TermRoster.PositionsCoverColumn | src/term_roster_parser.py:122 | every value of the name column is a key of `dict(zip(column, range(len(column))))` |
| TermRoster.PositionsLastOccurrence | src/term_roster_parser.py:122 | each key maps to the position of its last occurrence in the column, so later duplicates overwrite earlier ones |
| TermRoster.RowHeaderToRowNumber | src/term_roster_parser.py:111-122 | for a given name test: the header dictionary exists exactly when a name column is found. Every value of that column is a key, each key maps to the position of its last occurrence in the column, and the keys are distinct |
| TermRoster.Assign | src/term_roster_parser.py:91-92 | every name found in one header takes that header's row, and every other name keeps its row |
| TermRoster.FilterNamesDict | src/term_roster_parser.py:84-93 | each name maps to the row of the last header it is found in; every name found in any string header is present; headers that are not strings give nothing |
| TermRoster.NamesDictSound | src/term_roster_parser.py:84-93 | every key of the name dictionary is a full name and every value is one of the input rows |
| TermRoster.Parse | src/term_roster_parser.py:32-53 | for a given name test: parsing fails exactly when the frame has no rows or no object-typed column. A parsed roster keeps the frame; its date row is the one `find_date_row` picks, and its names are the last-header-wins name dictionary of the header dictionary |
| TermRoster.ParsedNames | src/term_roster_parser.py:32-53 | the parsed names are exactly the full names found in the string cells of the name column; each maps to a row whose name-column cell holds it, namely the row of the last header holding it in the header dictionary's key order |
| TermRoster.RepeatedHeaderOrder | src/term_roster_parser.py:122 | a header occurring twice keeps the dictionary place of its first occurrence and the row of its last |
| TermRoster.SharedHeaderWins | src/term_roster_parser.py:84-93 | a name in a repeated header and in a header between its occurrences takes the middle row, although a later row holds it too |
| Shifts.Read4Pad4 | src/shift.py:78 | four zero-padded digits read back as the year they were written from |
| Shifts.UidName | src/shift.py:78-79 | the UID's input string starts with `SWSLHD:60316064:` and then carries the start's fourteen date and time digits |
| Shifts.MakeShift | src/shift.py:43-63 | a shift's date is the argument's date. A label in the start-time table starts at that time for ten hours; any other label is all-day without a duration. The summary is the label's meaning or the label itself, and the UID is the UUID of the start's UID name. Categories, class and sequence are fixed |
| Shifts.UidNameRoundTrip | src/shift.py:78-79 | the UID name determines the start: its date and time digits read back as the start's date and time, midnight for an all-day start |
| Shifts.UidNameInjective | src/shift.py:65-81 | two starts the factory can produce with the same UID name are the same start |
| Shifts.StartTimesInjective | src/shift.py:35-41 | no two labels in the start-time table share a start time |
| Shifts.TimedLabelsDistinctUidNames | src/shift.py:50-79 | two different timed labels on one date give different UID names |
| Shifts.UntimedLabelsShareUid | src/shift.py:55-81 | every label outside the start-time table gives an all-day start at the date, so such labels on one date share a UID |
| Shifts.NormalLabelIdempotent | src/shift.py:45 | normalising an already normalised label changes nothing |
| Shifts.SameNormalLabelSameShift | src/shift.py:45 | labels that normalise alike, such as ` d ` and `D`, give identical shifts |
| Shifts.TimeOfDayIgnored | src/shift.py:46-48 | a date-time argument gives the same shift as its date |
| Shifts.TimedLabelsHaveMeaning | src/shift.py:25-41 | every label with a start time also has a meaning |
| Sync.InfixOfOff | src/ui.py:221 | `x in ("OFF")` holds for exactly `""`, `O`, `F`, `OF`, `FF` and `OFF` |
| Sync.KeepLabelExactly | src/ui.py:217-222 | the label test as written keeps a cell exactly when it is a string whose stripped upper-case form is none of the six infixes of `OFF` |
| Sync.KeepLabelIntendedExactly | src/ui.py:217-222 | the corrected label test keeps a cell exactly when it is a string whose stripped upper-case form is neither blank nor `OFF` |
| Sync.KeepLabelDiffers | src/ui.py:221 | the two label tests disagree exactly on the labels `O`, `F`, `OF` and `FF` |
| Sync.FloatShiftDropped | src/ui.py:221 | `F` has a start time, yet the test as written drops it while the corrected test keeps it |
| Sync.FloatShiftLost | src/ui.py:216-223 | a roster cell `F` gives no shift as written, and the 12:30 ten-hour Float shift when corrected |
| Sync.Slots | src/ui.py:203-216 | every column whose date-row cell is a date-time pairs that date-time with the user's cell below it, and there are as many pairs as date-times |
| Sync.SlotsFromColumns | src/ui.py:203-216 | every pair comes from one column: its date-time in the date row, its cell in the user's row |
| Sync.SlotsAppend | src/ui.py:207-216 | pairs come in column order: the pairs of two runs of columns are the first run's pairs followed by the second's |
| Sync.SlotsSingle | src/ui.py:203-209 | one column gives a pair exactly when its date-row cell is a date-time |
| Sync.Kept | src/ui.py:216-222 | the kept slots are exactly the slots holding a string that passes the test, and there are no more of them than slots |
| Sync.KeptSingle | src/ui.py:217-222 | one slot is kept exactly when it holds a string that passes the test |
| Sync.DeriveExactly | src/ui.py:216-223 | every derived shift is the shift of a slot whose label passes the test, and every such slot gives a derived shift |
| Sync.DeriveAppend | src/ui.py:216-223 | shifts are appended in slot order: deriving from two runs of slots gives the first run's shifts followed by the second's |
| Sync.DeriveSingle | src/ui.py:216-223 | one slot gives the shift of its label on its date exactly when the label passes the test, and nothing otherwise |
| Sync.KeptAgrees | src/ui.py:221 | on slots without the labels `O`, `F`, `OF` and `FF`, the label test as written and the corrected one keep the same slots |
| Sync.DeriveAgrees | src/ui.py:221 | on a row without the labels `O`, `F`, `OF` and `FF`, the label test as written and the corrected one derive the same shifts |
| Sync.Earliest | src/ui.py:228 | `min(dates)` is one of the dates and no date is earlier |
| Sync.Latest | src/ui.py:229 | `max(dates)` is one of the dates and no date is later |
| Sync.ShiftsInWindow | src/ui.py:225-229 | every derived shift's date lies between the window's first and last date |
| Sync.ReconcileExactly | src/ui.py:282-302 | a listed event is deleted exactly when the roster lacks it; a roster shift is uploaded exactly when the listing lacks it |
| Sync.ReconcileExample | src/ui.py:282-302 | listing `a, b` against roster `b, c` deletes `a`, uploads `c` and leaves `b` alone |
| Sync.EmptyRosterDeletesAll | src/ui.py:282-302 | with no roster shifts, every listed event is deleted and nothing is uploaded |
| Sync.SecondRunIdle | src/ui.py:282-302 | when the listing holds exactly the roster's shifts, nothing is deleted and nothing is uploaded |
| Sync.DeletesEffect | src/ui.py:286-289 | deleting a list of events removes exactly their UIDs from the calendar and leaves every other event as it was |
| Sync.Succeeded | src/ui.py:312-320 | the shifts whose upload succeeded, in order; as many as there were successful calls |
| Sync.SucceededExactly | src/ui.py:312-320 | a shift is among the successful uploads exactly when one of its uploads succeeded |
| Sync.SucceededAll | src/ui.py:312-320 | when every call succeeds, every shift was uploaded |
| Sync.SavesEffect | src/ui.py:312-320 | after the upload loop, failed calls included, each UID of a successful upload holds one of the successfully uploaded shifts with that UID, and every other UID holds what it held |
| Sync.Converges | src/ui.py:277-320 | after a run whose calls all succeed, the calendar holds every roster shift under its UID, and every listed event still there is a roster shift |
| Sync.Execute | src/ui.py:286-320 | a failed delete ends the run before any upload. Otherwise all deletes come before the successful uploads, in order; the successes are the successful calls; successes plus failures equal the number of uploads |
| Sync.Prepare | src/ui.py:198-229 | for a given label test (`KeepLabel` as written): an unknown user name or a date row without date-times stops the run. Otherwise there are no more shifts than dates, the window runs from the earliest to the latest date-time of the whole date row, and every shift lies inside it |
| Sync.EarliestOfRow | src/ui.py:228 | `min(dates)` is a date-time of the date row and no date-time of that row is earlier |
| Sync.LatestOfRow | src/ui.py:229 | `max(dates)` is a date-time of the date row and no date-time of that row is later |
| Sync.PreparedShiftsFromRow | src/ui.py:203-223 | the prepared shifts are exactly the shifts of the usable columns: each is the shift of a column with a date-time in the date row and a string passing the test in the user's row, made from that label on that date, and every such column gives one |

## Left out

- The Qt windows, message boxes, credential storage and log file: user interface and I/O.
- CalDAV networking (connecting, finding or creating the calendar, listing, `delete`, `save_event`): a delete or upload is an action on a store of events keyed by UID, and each call's success is an input.
- The event listing (`get_shifts_from_calendar`) is an input sequence. calendar_handler.py is not part of this model. As written it reads `Shift.APP_NAME`, which `Shift` does not define, so listing a window that holds any event raises.
- Loading the workbook with openpyxl or pandas: the sheet is a given grid of typed cells. pandas' choice of the header row is not modelled.
- Unicode letters in `\w`, `\b` and `upper()`: word characters and case mapping are ASCII. Whitespace follows Python's `isspace`.
- SHA-1 and the UUID layout, and the Australia/Sydney zone abbreviation (`%Z`): both are function parameters.
- Serialising a shift to iCalendar (`to_ical`) and reading events back: a listed event is compared with the roster's shifts by value.
- `NaT` cells: pandas' `NaT` passes `isinstance(o, datetime)` (src/ui.py:204, src/term_roster_parser.py:104), so the code counts it as a date and pairs it with the user's cell. A `Stamp` always holds a real date-time, so the model has no such cell.
- Fractional seconds: a date-time cell holds whole seconds.
- The `__main__` blocks of excel.py, term_roster_parser.py and shift.py: benchmarks and demos.
- Sync.Converges: assumes the listing shows the calendar's own events under their UIDs and that each UID names one roster shift. If two roster shifts share a UID, the later upload replaces the earlier one.
- NamePattern.FullNamesSound: states that every match is a full name; it does not state that `finditer` finds every full name.

## Findings

| source | as written | input that shows it | evidently intended | confidence | as-written member | corrected member |
|---|---|---|---|---|---|---|
| src/ui.py:221 | `shift_label.upper() not in ("OFF")` is a substring test, because `("OFF")` is a string | a roster cell `F`, the Float shift: it is dropped and never reaches the calendar | skip only the label `OFF`, as `not in ("OFF",)` would | high, not executed | Sync.KeepLabel, shown by Sync.FloatShiftLost | Sync.KeepLabelIntended, proved by Sync.KeepLabelIntendedExactly; Sync.Prepare with this test is the corrected run |
| src/term_roster_parser.py:59 | the first word's class is `[a-z'+]`, a plus sign instead of the hyphen | the header `Mary-anne Lee` is not counted as name-like, so on the sheet `Mary-anne Lee`, `Jo+e Bloggs` the names are read from the second column | `[a-z'-]` as in the second word and in src/excel.py:43 | medium, not executed | TermRoster.NameMatched, shown by TermRoster.HyphenatedFirstName and TermRoster.NameColumnDiffers | TermRoster.NameMatchedIntended, defined as the openpyxl name test and characterised by NamePattern.NameTestsSplit; TermRoster.Parse with this test is the corrected parser |
