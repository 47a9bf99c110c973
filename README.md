# Event check-in kiosk: the decision procedure, modelled and proved

The kiosk is a single-page web app backed by a spreadsheet. An attendee types an employee ID or a
name and presses Confirm. Between a configured start and end time, the kiosk finds the attendee's
row. Depending on the current mode it then either records a check-in (a timestamp, plus the
device's fingerprint so that one device cannot check in several people) or records a check-out
(a timestamp). The outcome is reported as a feedback message shown on the next render.

The model covers these parts of `event-check-in/app.py`:

- `get_data` reads the attendee worksheet into a frame. EmployeeID and DeviceFingerprint are
  turned into text and stripped, and rows that hold nothing are dropped.
- `update_cell` writes one cell, in 1-based sheet coordinates.
- `get_settings` reads the mode and the daily window from cells A2:C2 of the "Settings" sheet,
  parsing the times as `HH:MM`. It falls back to Check-in, 09:00 and 17:00.
- `save_settings` writes those three cells.
- The Confirm handler in `main` is the gate: the time window comes first, then the empty search
  term, then the empty sheet. It also covers the stripped search box and the one-shot feedback.
- `process_request` does the lookup, with the first ID match winning over name matches and two
  name matches being ambiguous. It then applies the guards of the mode and writes the cells at
  sheet row `label + 2` and column `get_loc + 1`.

Files, one module each:

| file | module | what it holds |
|---|---|---|
| `wrappers.dfy` | `Wrappers` | `Option` |
| `pytext.dfy` | `PyText` | Python's `str.strip()`, with the exact `isspace` set, and `str.lower()` |
| `settings.dfy` | `EventSettings` | time of day, the `strptime`/`strftime` `HH:MM` grammar, and the settings row and class `SettingsSheet` |
| `roster.dfy` | `Roster` | the sheet grid, column positions (`get_loc`), `get_data`, and the frame it yields |
| `decision.dfy` | `Decision` | lookup, guards, and `Decide`, which states what `process_request` answers and which cells it writes |
| `kiosk.dfy` | `Kiosk` | `Respond`, which states what the Confirm button does; class `Worksheet`, whose cells are updated in place; class `Session`, whose methods update the search term and feedback and write to the sheet |
| `scenarios.dfy` | `Scenarios` | the decision on concrete sheets: John Doe, M4095, table A1 |

The imperative parts are methods proved against the functions that specify them:

- `Session.ProcessRequest` ensures that the feedback and the new sheet are exactly `Decide`'s
  answer and writes.
- `Session.Confirm` ensures the same against `Respond`.
- The lemmas about `Decide` and `Respond` prove what the source promises.

Behaviour of the code that a reader might not expect, each proved as a lemma:

- **The device guard includes the row being checked in.** The code refuses the device when
  *any* row holds it, including the selected one (`FingerprintInUse`). That only matters for a
  row whose CheckInTime is blank but whose DeviceFingerprint is set.
- **A blank cell reads as the text "nan".** After `astype(str)`, an empty EmployeeID or
  DeviceFingerprint cell holds the text "nan". So the search term "nan" (any case) matches every
  row with an empty ID by ID. It selects the first row whose ID reads "nan" (`BlankIdMatchesNan`).
  A device whose fingerprint is "nan" counts as in use as soon as any row has an empty
  DeviceFingerprint cell, so a check-in from it is refused once the first guard passes
  (`BlankDeviceClaimsNan`).
- **`dropna(how='all')` drops nothing.** Because of the "nan" text, no row is ever empty, so
  frame labels are sheet positions and `label + 2` is the row's own sheet row
  (`GetDataReadsSheet`).
- **Only the exact mode "Check-in" selects check-in.** Any other content of A2, including an
  empty cell, selects check-out.
- **The end of the window is inclusive only to the minute.** The window is compared as Python
  `time` values. `now` carries seconds and microseconds, so 17:00:00.000001 is already outside a
  window that ends at 17:00 (`DefaultWindowBounds`). A window whose end is before its start is
  never open (`InvertedWindowNeverOpen`). Read as microseconds since midnight, the window
  is the closed interval from start to end (`InWindowIsInterval`).

## Model

| member | source | states |
|---|---|---|
| PyText.Strip | event-check-in/app.py:80 | `str.strip()` with no argument; its meaning is stated by StripSpec, StripEmptyIff, StripKeepsTrimmed and StripIdempotent |
| PyText.StripSpec | event-check-in/app.py:80 | `strip()` removes a prefix and a suffix of white space (Python's `isspace` set), and the result neither starts nor ends with white space |
| PyText.StripEmptyIff | event-check-in/app.py:245 | stripping leaves nothing exactly when the text is all white space |
| PyText.StripKeepsTrimmed | event-check-in/app.py:207 | text with no white space at either end is unchanged by `strip()` |
| PyText.StripIdempotent | event-check-in/app.py:202-207 | stripping twice is stripping once, so the stored search term is stable |
| PyText.Lower | event-check-in/app.py:229-231 | `lower()` keeps the length and maps each character on its own (ASCII capitals to small letters, everything else unchanged) |
| PyText.LowerIdempotent | event-check-in/app.py:229-231 | lowering twice is lowering once |
| EventSettings.ModeSelection | event-check-in/app.py:244 | `settings['mode'] == "Check-in"`: the mode "Check-in" selects check-in; "Check-out", an empty A2 or any other text selects check-out; the defaults select check-in |
| EventSettings.InWindow | event-check-in/app.py:214 | `start_time <= now <= end_time` on times of day, compared field by field; an interval of microseconds since midnight by InWindowIsInterval; its edges are stated by DefaultWindowBounds and InvertedWindowNeverOpen |
| EventSettings.NotAfterIsMicrosOrder | event-check-in/app.py:214 | for valid times, Python's field-by-field `<=` holds exactly when the first time has no more microseconds since midnight than the second |
| EventSettings.InWindowIsInterval | event-check-in/app.py:214 | the gate admits `now` exactly when its microseconds since midnight lie between those of the start and end times, both ends included |
| EventSettings.InvertedWindowNeverOpen | event-check-in/app.py:214 | when the end time is before the start time, no `now` passes `start <= now <= end` |
| EventSettings.DefaultWindowBounds | event-check-in/app.py:100 | the default window admits 09:00:00 and 17:00:00 and rejects one microsecond before or after |
| EventSettings.HourField | event-check-in/app.py:104 | an accepted `%H` field is an hour below 24 |
| EventSettings.MinuteField | event-check-in/app.py:104 | an accepted `%M` field is a minute below 60 |
| EventSettings.ParseHHMM | event-check-in/app.py:104-105 | a parsed `HH:MM` is a valid time of day with zero seconds and microseconds |
| EventSettings.FormatHHMM | event-check-in/app.py:114 | `strftime('%H:%M')` gives five characters: two digits, a colon, two digits |
| EventSettings.ParseFormat | event-check-in/app.py:104-114 | parsing what was formatted gives back the hour and minute |
| EventSettings.ParseIsCanonical | event-check-in/app.py:104-105 | every accepted text is the two-digit `HH:MM` form of the time it parses to, with at most the leading zero of the hour and/or of the minute left out, and it parses to the same time as that form |
| EventSettings.ParseExamples | event-check-in/app.py:104-105 | "9:05" and "17:00" parse; "24:00", "09:00:00" and "" do not |
| EventSettings.EncodeRow | event-check-in/app.py:114 | the row `save_settings` writes into A2:C2: the mode and both times as `HH:MM`; DecodeEncode states that reading it back gives the saved settings |
| EventSettings.DecodeRow | event-check-in/app.py:103-108 | the settings read are valid times, and either the defaults or the A2 mode exactly as stored |
| EventSettings.DecodeEncode | event-check-in/app.py:99-118 | settings saved and read back are the saved mode and times, to the minute |
| EventSettings.DecodeFallsBack | event-check-in/app.py:104-108 | an empty or unparsable B2 or C2 yields the defaults Check-in, 09:00, 17:00, whatever A2 holds |
| EventSettings.SettingsSheet.GetSettings | event-check-in/app.py:99-108 | valid times always; the defaults without a client or without a readable Settings sheet |
| EventSettings.SettingsSheet.SaveSettings | event-check-in/app.py:110-118 | without a client nothing changes; without the sheet the save fails and nothing changes; otherwise A2:C2 hold the mode and `HH:MM` times, and reading back gives the saved settings to the minute |
| Roster.ColumnIndex | event-check-in/app.py:251 | `get_loc` is the position of the first column with that name |
| Roster.LayoutOf | event-check-in/app.py:251-259 | the positions of the five required columns are distinct and within the header and name the right columns; the fingerprint position exists exactly when the column does |
| Roster.NormalizeCell | event-check-in/app.py:80 | `astype(str).str.strip()` on one cell: NaN becomes "nan", text is stripped; stated by StripNan and GetDataReadsSheet |
| Roster.NormalizeRows | event-check-in/app.py:79-80 | normalising keeps the number of rows and the width of each |
| Roster.DropMissing | event-check-in/app.py:81 | `dropna(how='all')` keeps, in order and with their labels, exactly the rows that hold some value |
| Roster.DropMissingKeepsAll | event-check-in/app.py:81 | with no empty row, every row is kept under its own position as label |
| Roster.GetData | event-check-in/app.py:74-81 | the frame has the header's layout and one label per row, each row as wide as the header |
| Roster.GetDataReadsSheet | event-check-in/app.py:79-81 | every sheet row is read under its own position; ID and fingerprint cells are the stripped text (a blank becomes "nan"); every other cell is as stored |
| Decision.MatchingRows | event-check-in/app.py:230-231 | the filter returns, in increasing order, exactly the rows whose lowered cell equals the key |
| Decision.Lookup | event-check-in/app.py:229-238 | a selected row is a row of the frame |
| Decision.LookupPrefersFirstId | event-check-in/app.py:230-234 | when some ID matches, the first ID match is selected, whatever the names |
| Decision.LookupByName | event-check-in/app.py:231-238 | with no ID match: one name match is selected and is the only one; "not found" iff no name matches; "ambiguous" iff two names match |
| Decision.IsBlank | event-check-in/app.py:245 | the negation of `pd.notna(x) and str(x).strip()`; IsBlankIff states it in terms of `strip()` |
| Decision.FingerprintInUse | event-check-in/app.py:247 | `df[df['DeviceFingerprint'] == fingerprint]` is not empty: some row, the selected one included, holds the device; used by CheckInGuards and CheckInSuccess |
| Decision.IsBlankIff | event-check-in/app.py:245 | a timestamp cell counts as empty iff it is NaN or strips to nothing |
| Decision.Feedback.Kind | event-check-in/app.py:215-260 | the `"type"` of each feedback: the two successes; the window, ambiguous-name and already-done warnings; the empty-term, not-found and device errors |
| Decision.Decide | event-check-in/app.py:228-260 | `process_request` as a decision: the feedback and the cells written, in order; stated by NotFoundIff, WritesOnlyOnSuccess, CheckInGuards, CheckOutGuard, CheckInSuccess and CheckOutSuccess |
| Decision.CheckInAt | event-check-in/app.py:244-254 | the check-in branch on the selected row; stated by CheckInGuards, CheckInOnFrame and CheckInSuccess |
| Decision.CheckOutAt | event-check-in/app.py:255-260 | the check-out branch on the selected row; stated by CheckOutGuard, CheckOutOnFrame and CheckOutSuccess |
| Decision.NotFoundIff | event-check-in/app.py:238 | "not found" exactly when neither an ID nor a name matches, in either mode |
| Decision.WritesOnlyOnSuccess | event-check-in/app.py:244-260 | cells are written iff the feedback is a success; success is the current mode's; at most two writes; the gate's messages never come from here |
| Decision.CheckInGuards | event-check-in/app.py:245-249 | check-in on the selected row: "already checked in" iff CheckInTime is not blank; "device used" iff it is blank and the device is in the column; success iff neither |
| Decision.CheckOutGuard | event-check-in/app.py:256-258 | check-out succeeds iff CheckOutTime is blank, and otherwise reports "already checked out" |
| Decision.ApplyWrite | event-check-in/app.py:89-97 | one `update_cell` keeps the number of rows |
| Decision.ApplyWrites | event-check-in/app.py:251-259 | a series of `update_cell` calls keeps the number of rows |
| Decision.ApplyWritesKeepsShape | event-check-in/app.py:89-97 | writing cells never changes the shape of the sheet |
| Decision.WriteOneCell | event-check-in/app.py:259 | a write at (row + 2, column + 1) replaces exactly that data cell |
| Decision.WriteTwoCells | event-check-in/app.py:251-253 | two writes on one row replace exactly those two cells |
| Decision.CheckInSuccess | event-check-in/app.py:245-254 | a reported check-in names the selected row's name and table; its CheckInTime was blank; no row held the device; the sheet afterwards differs only in that row's CheckInTime (the timestamp) and DeviceFingerprint (the device, when the column exists) |
| Decision.CheckInWrites | event-check-in/app.py:240-253 | the check-in writes: CheckInTime, then DeviceFingerprint when the column exists, at sheet row `label + 2` and column `get_loc + 1`; stated by CheckInOnFrame and CheckInWritesStamp |
| Decision.CheckInOnFrame | event-check-in/app.py:245-254 | a reported check-in passed both guards and writes CheckInTime, then DeviceFingerprint, on sheet row `label + 2` |
| Decision.CheckInWritesStamp | event-check-in/app.py:251-253 | the check-in writes stamp exactly the selected row |
| Decision.Stamped | event-check-in/app.py:251-253 | a stamped row holds the timestamp and the device in their columns and is otherwise unchanged |
| Decision.CheckOutSuccess | event-check-in/app.py:256-260 | a reported check-out names the selected row; its CheckOutTime was blank; afterwards only that cell changed, to the timestamp |
| Decision.CheckOutWrites | event-check-in/app.py:240-259 | the check-out write: CheckOutTime at sheet row `label + 2` and column `get_loc + 1`; stated by CheckOutOnFrame and CheckOutWritesStamp |
| Decision.CheckOutOnFrame | event-check-in/app.py:256-260 | a reported check-out passed its guard and writes CheckOutTime on sheet row `label + 2` |
| Decision.CheckOutWritesStamp | event-check-in/app.py:259 | the check-out write stamps exactly the selected row's CheckOutTime |
| Decision.MatchingRowsAgree | event-check-in/app.py:230-231 | filtering two tables that agree on a column gives the same rows |
| Decision.LookupAgrees | event-check-in/app.py:229-238 | the lookup depends only on the EmployeeID and Name columns |
| Decision.ReadAfterWrite | event-check-in/app.py:79-81 | re-reading a sheet whose row kept its ID and name reads every ID and name as before, and the other cells of that row as written |
| Decision.CheckInTwice | event-check-in/app.py:245-246 | after a check-in is written and the sheet re-read, the same term answers "already checked in" with the same name and writes nothing, whatever the device |
| Decision.CheckOutTwice | event-check-in/app.py:256-257 | after a check-out is written and the sheet re-read, the same term answers "already checked out", writes nothing, and the first timestamp stays |
| Decision.CheckOutIgnoresFingerprints | event-check-in/app.py:255-260 | check-out gives the same answer and writes whatever the device and whatever the fingerprint column holds |
| Decision.BlankIdMatchesNan | event-check-in/app.py:80 | a row with an empty EmployeeID matches the terms "nan", "NaN" and "NAN" by ID; all three select the same row, which is the first ID match and lies at or before that row |
| Decision.BlankDeviceClaimsNan | event-check-in/app.py:247 | an empty DeviceFingerprint cell makes a device whose fingerprint is "nan" count as used |
| Decision.LowerNan | event-check-in/app.py:229-230 | "nan", "NaN" and "NAN" all lower to "nan" |
| Decision.StripNan | event-check-in/app.py:80 | the text of a NaN cell survives `strip()` as "nan" |
| Kiosk.Respond | event-check-in/app.py:209-226 | what Confirm decides for a stripped term: the window first, then the empty term, and only then the sheet; stated by GateOutcomes, RespondCases, ConfirmedCheckIn and ConfirmedCheckOut |
| Kiosk.GateOutcomes | event-check-in/app.py:214-223 | "outside the window" iff the clock is outside it; "enter a term" iff inside with an empty term; no feedback iff the sheet has no rows; cells are written only past every check and on a success |
| Kiosk.RespondCases | event-check-in/app.py:214-223 | the gate's four outcomes, each in terms of the decision on the frame read from the sheet |
| Kiosk.ConfirmedCheckIn | event-check-in/app.py:214-254 | a check-in reported after Confirm means the window was open and the mode was check-in; the term selects the reported person, whose CheckInTime was blank; the sheet afterwards differs only in that person's row, stamped |
| Kiosk.CheckInOnSheet | event-check-in/app.py:240-254 | the same on the sheet itself: the selected row's name, table and blank CheckInTime, and the stamped row |
| Kiosk.ConfirmedCheckOut | event-check-in/app.py:214-260 | a check-out reported after Confirm means the window was open and the mode was not check-in; only the selected person's CheckOutTime changed, to the timestamp |
| Kiosk.CheckOutOnSheet | event-check-in/app.py:255-260 | the same on the sheet itself: blank CheckOutTime before, the timestamp after |
| Kiosk.Worksheet.Data | event-check-in/app.py:74-81 | for a header with the five columns, the frame read from the current cells has one row per sheet row, under its own position |
| Kiosk.Worksheet.UpdateCell | event-check-in/app.py:89-97 | the cell at the 1-based (row, column) within the data rows gets the value; anything else leaves the sheet unchanged |
| Kiosk.Session.EnterSearch | event-check-in/app.py:202-207 | the stored search term is the input stripped |
| Kiosk.Session.TakeFeedback | event-check-in/app.py:193-198 | the waiting feedback is shown once and then cleared |
| Kiosk.Session.ProcessRequest | event-check-in/app.py:228-260 | the feedback is `Decide`'s answer, and the sheet afterwards is the old one with `Decide`'s writes applied in order |
| Kiosk.Session.CheckInRow | event-check-in/app.py:244-254 | the check-in branch: feedback and writes as `CheckInAt` decides |
| Kiosk.Session.CheckOutRow | event-check-in/app.py:255-260 | the check-out branch: feedback and write as `CheckOutAt` decides |
| Kiosk.Session.Confirm | event-check-in/app.py:209-226 | for any header outside the window or with an empty term, and for a header with the five columns otherwise: the sheet receives exactly `Respond`'s writes; the feedback is `Respond`'s, or stays as it was when there is none; the search box is emptied |
| Scenarios.HeaderLayout | event-check-in/app.py:251-253 | the six standard columns sit at positions 0 to 5 |
| Scenarios.JohnRead | event-check-in/app.py:79-81 | John Doe's sheet row is read with his empty device cell as "nan" |
| Scenarios.FirstCheckIn | event-check-in/app.py:245-254 | "M4095" from device "abc" checks John Doe in at table A1, writing D2 and F2 |
| Scenarios.SecondAttemptByName | event-check-in/app.py:245-246 | "john doe" from another device afterwards is "already checked in", with nothing written |
| Scenarios.JohnByName | event-check-in/app.py:231-236 | "john doe" selects John Doe's row by name |
| Scenarios.SameDeviceForAnother | event-check-in/app.py:247-248 | a second person tried from device "abc" is refused with "device used" |

## Left out

- User interface: page layout, CSS, the spinner, the bilingual message texts (reduced to the
  `Feedback` constructors and their severity), and `st.rerun`.
- The admin panel's password login. `save_settings` itself is modelled. The radio widget's
  `index(settings['mode'])` fails for a mode other than the two listed; that is not modelled.
- Connecting to the spreadsheet (credentials, `gspread`, opening by name) is not modelled. A
  missing client or Settings sheet becomes a parameter or an absent row. An attendee sheet that
  cannot be read (`get_data` returning an empty frame) is modelled only as a sheet with no data
  rows.
- Caching (`st.cache_data` with its time-to-live, `get_data.clear`): every read sees the current
  cells.
- Concurrency: two sessions racing between read and write (TOCTOU) are not modelled. Each request
  runs alone against the sheet.
- The clock and time zone: `now` and the timestamp are parameters, independent of each other.
  The timestamp's `%Y-%m-%d %H:%M:%S` format is not modelled.
- Device fingerprint acquisition (browser JavaScript, readiness of the buttons) and the `VERSION`
  banner: the fingerprint is a parameter, and a disabled Confirm button is a call that is never
  made.
- Kiosk.Worksheet.UpdateCell: failures of the remote write (reported and swallowed) are not
  modelled. A write outside the data rows is a no-op rather than a growth of the sheet; the
  decision only ever writes inside them (`CheckInSuccess`, `CheckOutSuccess`).
- Cell types other than text: numbers and dates in cells are taken to be already rendered as
  their text.
- PyText.Lower: maps only the ASCII capitals 'A' to 'Z'; Python's full Unicode case mapping
  (e.g. 'É' to 'é', or a character that becomes two) is left out.
- EventSettings.HourField: accepts only the ASCII digits '0' to '9', where `strptime` also
  accepts other Unicode decimal digits.
- EventSettings.MinuteField: accepts only the ASCII digits '0' to '9', where `strptime` also
  accepts other Unicode decimal digits.
- Roster.HasSchema: the source reads the columns only where it uses them. EmployeeID and Name
  are read by the lookup, CheckInTime and TableNo only in check-in mode, DeviceFingerprint only
  if present, and CheckOutTime only in check-out mode. A missing one raises `KeyError` on that
  path only. Outside the window or with an empty term the sheet is not read at all, and
  `Respond` and `Session.Confirm` require nothing of its columns there; the `Worksheet` and
  `Session` invariants ask only that every row be as wide as the header. Once the sheet is read,
  the model requires all five columns, with distinct header names, on every path. A sheet
  without data rows and with a missing column, which the source passes without error, is
  therefore excluded too.
- Roster.NormalizeCell: an empty cell is the only one read as NaN. `get_as_dataframe` also reads
  pandas' default NA texts ("N/A", "NA", "null", "nan" and the like) as NaN; that parsing
  library is not modelled, so for instance a CheckInTime cell holding "N/A" is blank in the
  source but not in the model.
- Decision.Lookup: a Name column with no text in any row is read by `get_as_dataframe` as a float
  column of NaN, and `df['Name'].str.lower()` then raises `AttributeError`. The source evaluates
  that filter even when an ID has matched, so `process_request` stops with no feedback and no
  write. The model has no such failure: a NaN name is simply a cell that matches no term, and
  the lookup and the decision go ahead on the ID match.
- The readiness check that compares two session fingerprint keys is not modelled.
