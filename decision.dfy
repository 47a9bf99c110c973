/**
 * `process_request`: looking a person up in the frame read from the
 * worksheet, the guards of the current mode, and the cells the kiosk writes.
 */
module Decision {
  import opened Wrappers
  import opened PyText
  import opened Roster

  // ---------------------------------------------------------------------------
  // Lookup
  // ---------------------------------------------------------------------------

  /** `cell.str.lower() == key`: a missing cell matches nothing. */
  predicate MatchesKey(cell: Cell, key: string) {
    cell.Some? && Lower(cell.value) == key
  }

  /** The boolean-mask filter `df[df[col].str.lower() == key]`: the matching positions, in order. */
  function MatchingRows(rows: seq<Row>, c: nat, key: string): (r: seq<nat>)
    requires forall i :: 0 <= i < |rows| ==> c < |rows[i]|
    ensures forall k :: 0 <= k < |r| ==> r[k] < |rows| && MatchesKey(rows[r[k]][c], key)
    ensures forall i :: 0 <= i < |rows| && MatchesKey(rows[i][c], key) ==> i in r
    ensures forall j, k :: 0 <= j < k < |r| ==> r[j] < r[k]
  {
    if rows == [] then []
    else
      var n := |rows| - 1;
      var prefix := MatchingRows(rows[..n], c, key);
      if MatchesKey(rows[n][c], key) then prefix + [n] else prefix
  }

  /** Which row a search term selects, or why none is selected. */
  datatype Match = Unique(row: nat) | SeveralNames | NoMatch

  /** An ID match wins (the first one); otherwise exactly one name match. */
  function Lookup(f: Frame, term: string): (m: Match)
    requires ValidFrame(f)
    ensures m.Unique? ==> m.row < |f.rows|
  {
    var key := Lower(term);
    var ids := MatchingRows(f.rows, f.layout.id, key);
    var names := MatchingRows(f.rows, f.layout.name, key);
    if ids != [] then Unique(ids[0])
    else if names == [] then NoMatch
    else if |names| == 1 then Unique(names[0])
    else SeveralNames
  }

  predicate IdMatches(f: Frame, i: nat, term: string)
    requires ValidFrame(f) && i < |f.rows|
  {
    MatchesKey(f.rows[i][f.layout.id], Lower(term))
  }

  predicate NameMatches(f: Frame, i: nat, term: string)
    requires ValidFrame(f) && i < |f.rows|
  {
    MatchesKey(f.rows[i][f.layout.name], Lower(term))
  }

  /** When some ID matches, the first row whose ID matches is chosen, whatever the names say. */
  lemma LookupPrefersFirstId(f: Frame, term: string, i: nat)
    requires ValidFrame(f) && i < |f.rows| && IdMatches(f, i, term)
    ensures Lookup(f, term).Unique?
    ensures var r := Lookup(f, term).row;
      IdMatches(f, r, term) && r <= i && forall j :: 0 <= j < r ==> !IdMatches(f, j, term)
  {
    var ids := MatchingRows(f.rows, f.layout.id, Lower(term));
    assert i in ids;
    assert forall k :: 0 <= k < |ids| ==> ids[0] <= ids[k];
  }

  /** With no ID match, names decide: one match selects it, two or more are ambiguous, none is not found. */
  lemma LookupByName(f: Frame, term: string)
    requires ValidFrame(f)
    requires forall i :: 0 <= i < |f.rows| ==> !IdMatches(f, i, term)
    ensures Lookup(f, term).Unique? ==>
      var r := Lookup(f, term).row;
      NameMatches(f, r, term) && forall j :: 0 <= j < |f.rows| && NameMatches(f, j, term) ==> j == r
    ensures Lookup(f, term) == NoMatch <==> forall i :: 0 <= i < |f.rows| ==> !NameMatches(f, i, term)
    ensures Lookup(f, term) == SeveralNames <==>
      exists i, j :: 0 <= i < j < |f.rows| && NameMatches(f, i, term) && NameMatches(f, j, term)
  {
    var ids := MatchingRows(f.rows, f.layout.id, Lower(term));
    var names := MatchingRows(f.rows, f.layout.name, Lower(term));
    if ids != [] {
      assert IdMatches(f, ids[0], term);
    }
    assert forall j :: 0 <= j < |f.rows| && NameMatches(f, j, term) ==> j in names;
    if names != [] {
      assert NameMatches(f, names[0], term);
    }
    if |names| >= 2 {
      assert NameMatches(f, names[0], term) && NameMatches(f, names[1], term) && names[0] < names[1];
    }
  }

  // ---------------------------------------------------------------------------
  // The decision
  // ---------------------------------------------------------------------------

  /** The cell is empty or holds white space only (IsBlankIff: the test `pd.notna(x) and str(x).strip()` fails). */
  predicate IsBlank(c: Cell) {
    c.None? || AllSpace(c.value)
  }

  /** A cell is blank exactly when it is NaN or stripping its text leaves nothing. */
  lemma IsBlankIff(c: Cell)
    ensures IsBlank(c) <==> c.None? || Strip(c.value) == []
  {
    if c.Some? {
      StripEmptyIff(c.value);
    }
  }

  /** `df[df['DeviceFingerprint'] == fingerprint]` is not empty: some row, the selected one included, is bound to the device. */
  predicate FingerprintInUse(f: Frame, fingerprint: string)
    requires ValidFrame(f) && f.layout.fingerprint.Some?
  {
    exists k :: 0 <= k < |f.rows| && f.rows[k][f.layout.fingerprint.value] == Some(fingerprint)
  }

  datatype Severity = Success | Warning | Error

  /** The feedback left for the next page render; the source's bilingual texts are reduced to their kind and data. */
  datatype Feedback =
    | OutsideWindow                         // not open yet, or already closed
    | EmptySearch                           // nothing entered
    | AmbiguousName                         // several people share the name: use the employee ID
    | NotFound                              // no such ID or name
    | AlreadyCheckedIn(name: Cell)
    | DeviceAlreadyUsed                     // this device already checked someone in
    | CheckedIn(name: Cell, tableNo: Cell)
    | AlreadyCheckedOut(name: Cell)
    | CheckedOut(name: Cell)
  {
    function Kind(): Severity {
      match this
      case CheckedIn(_, _) => Success
      case CheckedOut(_) => Success
      case OutsideWindow => Warning
      case AmbiguousName => Warning
      case AlreadyCheckedIn(_) => Warning
      case AlreadyCheckedOut(_) => Warning
      case EmptySearch => Error
      case NotFound => Error
      case DeviceAlreadyUsed => Error
    }
  }

  /** One `update_cell(row, col, value)`: 1-based sheet coordinates, row 1 being the header. */
  datatype CellWrite = CellWrite(row: nat, col: nat, value: string)

  /** Check-in mode on the selected row `i`: two guards, then the timestamp and the device. */
  function CheckInAt(f: Frame, i: nat, timestamp: string, fingerprint: string): (Feedback, seq<CellWrite>)
    requires ValidFrame(f) && i < |f.rows|
  {
    var L := f.layout;
    var row := f.rows[i];
    if !IsBlank(row[L.checkIn]) then (AlreadyCheckedIn(row[L.name]), [])
    else if L.fingerprint.Some? && FingerprintInUse(f, fingerprint) then (DeviceAlreadyUsed, [])
    else
      (CheckedIn(row[L.name], row[L.tableNo]), CheckInWrites(L, f.labels[i], timestamp, fingerprint))
  }

  /** The cells a check-in writes on the data row labelled `r`: CheckInTime, then DeviceFingerprint when the column exists. */
  function CheckInWrites(L: Layout, r: nat, timestamp: string, fingerprint: string): seq<CellWrite> {
    [CellWrite(r + 2, L.checkIn + 1, timestamp)]
    + if L.fingerprint.Some? then [CellWrite(r + 2, L.fingerprint.value + 1, fingerprint)] else []
  }

  /** Check-out mode on the selected row `i`: one guard, then the timestamp. */
  function CheckOutAt(f: Frame, i: nat, timestamp: string): (Feedback, seq<CellWrite>)
    requires ValidFrame(f) && i < |f.rows|
  {
    var L := f.layout;
    var row := f.rows[i];
    if !IsBlank(row[L.checkOut]) then (AlreadyCheckedOut(row[L.name]), [])
    else (CheckedOut(row[L.name]), CheckOutWrites(L, f.labels[i], timestamp))
  }

  /** The cell a check-out writes on the data row labelled `r`: CheckOutTime. */
  function CheckOutWrites(L: Layout, r: nat, timestamp: string): seq<CellWrite> {
    [CellWrite(r + 2, L.checkOut + 1, timestamp)]
  }

  /**
   * `process_request` as a decision: the feedback, and the cells to write, in
   * the order they are written. A row is written at sheet row `label + 2`, a
   * column at `get_loc + 1`.
   */
  function Decide(f: Frame, term: string, checkIn: bool, timestamp: string, fingerprint: string): (Feedback, seq<CellWrite>)
    requires ValidFrame(f)
  {
    match Lookup(f, term)
    case NoMatch => (NotFound, [])
    case SeveralNames => (AmbiguousName, [])
    case Unique(i) => if checkIn then CheckInAt(f, i, timestamp, fingerprint) else CheckOutAt(f, i, timestamp)
  }

  // ---------------------------------------------------------------------------
  // Writing cells
  // ---------------------------------------------------------------------------

  /** The write addresses a cell of the data rows (sheet row 2 is data row 0). */
  predicate InGrid(raw: seq<Row>, w: CellWrite) {
    2 <= w.row < |raw| + 2 && 1 <= w.col <= |raw[w.row - 2]|
  }

  /** `update_cell` on the sheet's data rows; the decision only issues writes inside them (CheckInSuccess, CheckOutSuccess). */
  function ApplyWrite(raw: seq<Row>, w: CellWrite): (r: seq<Row>)
    ensures |r| == |raw|
  {
    if InGrid(raw, w) then raw[w.row - 2 := raw[w.row - 2][w.col - 1 := Some(w.value)]] else raw
  }

  function ApplyWrites(raw: seq<Row>, ws: seq<CellWrite>): (r: seq<Row>)
    ensures |r| == |raw|
    decreases |ws|
  {
    if ws == [] then raw else ApplyWrites(ApplyWrite(raw, ws[0]), ws[1..])
  }

  /** Writing cells never changes the shape of the sheet. */
  lemma {:induction false} ApplyWritesKeepsShape(width: nat, raw: seq<Row>, ws: seq<CellWrite>)
    requires Rectangular(width, raw)
    ensures Rectangular(width, ApplyWrites(raw, ws))
    decreases |ws|
  {
    if ws != [] {
      ApplyWritesKeepsShape(width, ApplyWrite(raw, ws[0]), ws[1..]);
    }
  }

  /** One write inside the grid replaces exactly the cell it addresses. */
  lemma WriteOneCell(raw: seq<Row>, i: nat, c: nat, v: string)
    requires i < |raw| && c < |raw[i]|
    ensures ApplyWrites(raw, [CellWrite(i + 2, c + 1, v)]) == raw[i := raw[i][c := Some(v)]]
  {
    var w := CellWrite(i + 2, c + 1, v);
    assert ApplyWrites(raw, [w]) == ApplyWrites(ApplyWrite(raw, w), []);
  }

  /** Two writes to one row replace exactly the two cells they address, the later one last. */
  lemma WriteTwoCells(raw: seq<Row>, i: nat, c1: nat, v1: string, c2: nat, v2: string)
    requires i < |raw| && c1 < |raw[i]| && c2 < |raw[i]|
    ensures ApplyWrites(raw, [CellWrite(i + 2, c1 + 1, v1), CellWrite(i + 2, c2 + 1, v2)])
      == raw[i := raw[i][c1 := Some(v1)][c2 := Some(v2)]]
  {
    var w1, w2 := CellWrite(i + 2, c1 + 1, v1), CellWrite(i + 2, c2 + 1, v2);
    var raw1 := ApplyWrite(raw, w1);
    assert raw1 == raw[i := raw[i][c1 := Some(v1)]];
    assert ApplyWrites(raw, [w1, w2]) == ApplyWrites(raw1, [w2]) by {
      assert [w1, w2][1..] == [w2];
    }
    WriteOneCell(raw1, i, c2, v2);
    assert raw1[i := raw1[i][c2 := Some(v2)]] == raw[i := raw[i][c1 := Some(v1)][c2 := Some(v2)]];
  }

  // ---------------------------------------------------------------------------
  // What the decision promises
  // ---------------------------------------------------------------------------

  /** "Not found" exactly when neither an ID nor a name matches, in either mode. */
  lemma NotFoundIff(f: Frame, term: string, checkIn: bool, timestamp: string, fingerprint: string)
    requires ValidFrame(f)
    ensures Decide(f, term, checkIn, timestamp, fingerprint).0 == NotFound <==>
      forall i :: 0 <= i < |f.rows| ==> !IdMatches(f, i, term) && !NameMatches(f, i, term)
  {
    if exists i :: 0 <= i < |f.rows| && IdMatches(f, i, term) {
      var i :| 0 <= i < |f.rows| && IdMatches(f, i, term);
      LookupPrefersFirstId(f, term, i);
    } else {
      LookupByName(f, term);
    }
  }

  /** Cells are written exactly when the feedback is a success, and never more than two. */
  lemma WritesOnlyOnSuccess(f: Frame, term: string, checkIn: bool, timestamp: string, fingerprint: string)
    requires ValidFrame(f)
    ensures var d := Decide(f, term, checkIn, timestamp, fingerprint);
      && (d.1 != [] <==> d.0.Kind() == Success)
      && (d.0.Kind() == Success <==> (if checkIn then d.0.CheckedIn? else d.0.CheckedOut?))
      && |d.1| <= 2
      && !d.0.OutsideWindow? && !d.0.EmptySearch?
      && (d.0.CheckedIn? ==> checkIn) && (d.0.CheckedOut? ==> !checkIn)
  {
  }

  /** Check-in on a selected row: already checked in wins over the device guard; success needs both to pass. */
  lemma CheckInGuards(f: Frame, term: string, timestamp: string, fingerprint: string)
    requires ValidFrame(f) && Lookup(f, term).Unique?
    ensures var i := Lookup(f, term).row;
      var L := f.layout;
      var d := Decide(f, term, true, timestamp, fingerprint);
      && (d.0.AlreadyCheckedIn? <==> !IsBlank(f.rows[i][L.checkIn]))
      && (d.0 == DeviceAlreadyUsed <==>
            IsBlank(f.rows[i][L.checkIn]) && L.fingerprint.Some? && FingerprintInUse(f, fingerprint))
      && (d.0.CheckedIn? <==>
            IsBlank(f.rows[i][L.checkIn]) && !(L.fingerprint.Some? && FingerprintInUse(f, fingerprint)))
  {
  }

  /** Check-out on a selected row succeeds exactly when its CheckOutTime is blank; fingerprints play no part. */
  lemma CheckOutGuard(f: Frame, term: string, timestamp: string, fingerprint: string)
    requires ValidFrame(f) && Lookup(f, term).Unique?
    ensures var i := Lookup(f, term).row;
      var d := Decide(f, term, false, timestamp, fingerprint);
      && (d.0.CheckedOut? <==> IsBlank(f.rows[i][f.layout.checkOut]))
      && (d.0.AlreadyCheckedOut? <==> !IsBlank(f.rows[i][f.layout.checkOut]))
  {
  }

  /**
   * A successful check-in on the frame read from the sheet: the selected
   * person's name and table are reported, their CheckInTime was blank, no row
   * holds the device, and the sheet afterwards differs only in that person's
   * CheckInTime cell, now the timestamp, and DeviceFingerprint cell (when the
   * column exists), now the device.
   */
  lemma CheckInSuccess(raw: seq<Row>, f: Frame, term: string, timestamp: string, fingerprint: string)
    requires ValidFrame(f) && ReadFrom(f, raw)
    requires Decide(f, term, true, timestamp, fingerprint).0.CheckedIn?
    ensures Lookup(f, term).Unique?
    ensures var i := Lookup(f, term).row;
      var L := f.layout;
      var d := Decide(f, term, true, timestamp, fingerprint);
      && d.0 == CheckedIn(raw[i][L.name], raw[i][L.tableNo])
      && IsBlank(raw[i][L.checkIn])
      && (L.fingerprint.Some? ==>
            forall k :: 0 <= k < |raw| ==> NormalizeCell(raw[k][L.fingerprint.value]) != Some(fingerprint))
      && ApplyWrites(raw, d.1) == raw[i := Stamped(L, raw[i], timestamp, fingerprint)]
  {
    CheckInOnFrame(f, term, timestamp, fingerprint);
    var i := Lookup(f, term).row;
    var L := f.layout;
    assert f.rows[i][L.name] == raw[i][L.name] && f.rows[i][L.tableNo] == raw[i][L.tableNo];
    assert f.rows[i][L.checkIn] == raw[i][L.checkIn];
    if L.fingerprint.Some? {
      forall k | 0 <= k < |raw| ensures NormalizeCell(raw[k][L.fingerprint.value]) != Some(fingerprint) {
        assert f.rows[k][L.fingerprint.value] == NormalizeCell(raw[k][L.fingerprint.value]);
      }
    }
    assert f.labels[i] == i;
    CheckInWritesStamp(raw, L, i, timestamp, fingerprint);
  }

  /** A successful check-in in terms of the frame: the guards that passed, the report and the writes. */
  lemma CheckInOnFrame(f: Frame, term: string, timestamp: string, fingerprint: string)
    requires ValidFrame(f)
    requires Decide(f, term, true, timestamp, fingerprint).0.CheckedIn?
    ensures Lookup(f, term).Unique?
    ensures var i := Lookup(f, term).row;
      var L := f.layout;
      && IsBlank(f.rows[i][L.checkIn])
      && !(L.fingerprint.Some? && FingerprintInUse(f, fingerprint))
      && Decide(f, term, true, timestamp, fingerprint)
         == (CheckedIn(f.rows[i][L.name], f.rows[i][L.tableNo]), CheckInWrites(L, f.labels[i], timestamp, fingerprint))
  {
  }

  /** The check-in writes, inside the grid, stamp exactly the selected row. */
  lemma CheckInWritesStamp(raw: seq<Row>, L: Layout, i: nat, timestamp: string, fingerprint: string)
    requires ValidLayout(L) && i < |raw| && |raw[i]| == L.width
    ensures ApplyWrites(raw, CheckInWrites(L, i, timestamp, fingerprint)) == raw[i := Stamped(L, raw[i], timestamp, fingerprint)]
  {
    if L.fingerprint.Some? {
      WriteTwoCells(raw, i, L.checkIn, timestamp, L.fingerprint.value, fingerprint);
    } else {
      WriteOneCell(raw, i, L.checkIn, timestamp);
    }
  }

  /** A row once checked in: the timestamp in CheckInTime and, when the column exists, the device in DeviceFingerprint. */
  function Stamped(L: Layout, row: Row, timestamp: string, fingerprint: string): (r: Row)
    requires ValidLayout(L) && |row| == L.width
    ensures |r| == |row| && r[L.checkIn] == Some(timestamp)
    ensures L.fingerprint.Some? ==> r[L.fingerprint.value] == Some(fingerprint)
    ensures forall k :: 0 <= k < |row| && k != L.checkIn && L.fingerprint != Some(k) ==> r[k] == row[k]
  {
    var r := row[L.checkIn := Some(timestamp)];
    if L.fingerprint.Some? then r[L.fingerprint.value := Some(fingerprint)] else r
  }

  /**
   * A successful check-out on the frame read from the sheet: the selected
   * person's name is reported, their CheckOutTime was blank, and the sheet
   * afterwards differs only in that cell, now the timestamp.
   */
  lemma CheckOutSuccess(raw: seq<Row>, f: Frame, term: string, timestamp: string, fingerprint: string)
    requires ValidFrame(f) && ReadFrom(f, raw)
    requires Decide(f, term, false, timestamp, fingerprint).0.CheckedOut?
    ensures Lookup(f, term).Unique?
    ensures var i := Lookup(f, term).row;
      var L := f.layout;
      var d := Decide(f, term, false, timestamp, fingerprint);
      && d.0 == CheckedOut(raw[i][L.name])
      && IsBlank(raw[i][L.checkOut])
      && ApplyWrites(raw, d.1) == raw[i := raw[i][L.checkOut := Some(timestamp)]]
  {
    CheckOutOnFrame(f, term, timestamp, fingerprint);
    var i := Lookup(f, term).row;
    var L := f.layout;
    assert f.rows[i][L.name] == raw[i][L.name] && f.rows[i][L.checkOut] == raw[i][L.checkOut];
    assert f.labels[i] == i;
    CheckOutWritesStamp(raw, L, i, timestamp);
  }

  /** The check-out write, inside the grid, stamps exactly the selected row's CheckOutTime. */
  lemma CheckOutWritesStamp(raw: seq<Row>, L: Layout, i: nat, timestamp: string)
    requires ValidLayout(L) && i < |raw| && |raw[i]| == L.width
    ensures ApplyWrites(raw, CheckOutWrites(L, i, timestamp)) == raw[i := raw[i][L.checkOut := Some(timestamp)]]
  {
    WriteOneCell(raw, i, L.checkOut, timestamp);
  }

  /** A successful check-out in terms of the frame: the guard that passed, the report and the write. */
  lemma CheckOutOnFrame(f: Frame, term: string, timestamp: string, fingerprint: string)
    requires ValidFrame(f)
    requires Decide(f, term, false, timestamp, fingerprint).0.CheckedOut?
    ensures Lookup(f, term).Unique?
    ensures var i := Lookup(f, term).row;
      var L := f.layout;
      && IsBlank(f.rows[i][L.checkOut])
      && Decide(f, term, false, timestamp, fingerprint)
         == (CheckedOut(f.rows[i][L.name]), CheckOutWrites(L, f.labels[i], timestamp))
  {
  }

  /** Filtering two tables that agree on a column gives the same positions. */
  lemma {:induction false} MatchingRowsAgree(rows1: seq<Row>, rows2: seq<Row>, c: nat, key: string)
    requires |rows1| == |rows2|
    requires forall i :: 0 <= i < |rows1| ==> c < |rows1[i]| && c < |rows2[i]| && rows1[i][c] == rows2[i][c]
    ensures MatchingRows(rows1, c, key) == MatchingRows(rows2, c, key)
  {
    if rows1 != [] {
      var n := |rows1| - 1;
      MatchingRowsAgree(rows1[..n], rows2[..n], c, key);
    }
  }

  /** Lookup reads only the EmployeeID and Name columns. */
  lemma LookupAgrees(f: Frame, g: Frame, term: string)
    requires ValidFrame(f) && ValidFrame(g) && |f.rows| == |g.rows|
    requires f.layout.id == g.layout.id && f.layout.name == g.layout.name
    requires forall r :: 0 <= r < |f.rows| ==>
      f.rows[r][f.layout.id] == g.rows[r][g.layout.id] && f.rows[r][f.layout.name] == g.rows[r][g.layout.name]
    ensures Lookup(f, term) == Lookup(g, term)
  {
    MatchingRowsAgree(f.rows, g.rows, f.layout.id, Lower(term));
    MatchingRowsAgree(f.rows, g.rows, f.layout.name, Lower(term));
  }

  /**
   * Reading the sheet again after row `i` was replaced by `row`, with the same
   * ID and name: every ID and name reads as before, and the other columns of
   * row `i` read as `row` holds them.
   */
  lemma ReadAfterWrite(raw: seq<Row>, f: Frame, g: Frame, i: nat, row: Row)
    requires ValidFrame(f) && ReadFrom(f, raw) && ValidFrame(g) && g.layout == f.layout
    requires i < |raw| && |row| == f.layout.width
    requires row[f.layout.id] == raw[i][f.layout.id] && row[f.layout.name] == raw[i][f.layout.name]
    requires ReadFrom(g, raw[i := row])
    ensures |g.rows| == |f.rows|
    ensures forall r :: 0 <= r < |f.rows| ==>
      f.rows[r][f.layout.id] == g.rows[r][f.layout.id] && f.rows[r][f.layout.name] == g.rows[r][f.layout.name]
    ensures forall k :: 0 <= k < f.layout.width && !IsStrippedColumn(f.layout, k) ==> g.rows[i][k] == row[k]
  {
    var L := f.layout;
    forall r | 0 <= r < |f.rows|
      ensures f.rows[r][L.id] == g.rows[r][L.id] && f.rows[r][L.name] == g.rows[r][L.name]
    {
      assert raw[i := row][r][L.id] == raw[r][L.id] && raw[i := row][r][L.name] == raw[r][L.name];
    }
    forall k | 0 <= k < L.width && !IsStrippedColumn(L, k) ensures g.rows[i][k] == row[k] {
      assert raw[i := row][i] == row;
    }
  }

  /**
   * Checking the same person in twice: once the first check-in has been
   * written and the sheet read again, the same search term is answered with
   * "already checked in" under the same name, and nothing more is written,
   * whatever the second timestamp and device.
   */
  lemma CheckInTwice(raw: seq<Row>, f: Frame, g: Frame, term: string, timestamp: string, fingerprint: string,
                     timestamp2: string, fingerprint2: string)
    requires ValidFrame(f) && ReadFrom(f, raw)
    requires Decide(f, term, true, timestamp, fingerprint).0.CheckedIn? && !IsBlank(Some(timestamp))
    requires ValidFrame(g) && g.layout == f.layout && ReadFrom(g, ApplyWrites(raw, Decide(f, term, true, timestamp, fingerprint).1))
    ensures Decide(g, term, true, timestamp2, fingerprint2) ==
      (AlreadyCheckedIn(Decide(f, term, true, timestamp, fingerprint).0.name), [])
  {
    CheckInOnFrame(f, term, timestamp, fingerprint);
    var i := Lookup(f, term).row;
    var L := f.layout;
    var row := Stamped(L, raw[i], timestamp, fingerprint);
    assert ApplyWrites(raw, Decide(f, term, true, timestamp, fingerprint).1) == raw[i := row] by {
      CheckInSuccess(raw, f, term, timestamp, fingerprint);
    }
    ReadAfterWrite(raw, f, g, i, row);
    LookupAgrees(f, g, term);
    assert g.rows[i][L.checkIn] == Some(timestamp);
    assert g.rows[i][L.name] == f.rows[i][L.name];
  }

  /**
   * Checking the same person out twice: the second attempt, on the sheet read
   * again, is answered with "already checked out", writes nothing, and the
   * first timestamp stays in place.
   */
  lemma CheckOutTwice(raw: seq<Row>, f: Frame, g: Frame, term: string, timestamp: string, fingerprint: string,
                      timestamp2: string, fingerprint2: string)
    requires ValidFrame(f) && ReadFrom(f, raw)
    requires Decide(f, term, false, timestamp, fingerprint).0.CheckedOut? && !IsBlank(Some(timestamp))
    requires ValidFrame(g) && g.layout == f.layout && ReadFrom(g, ApplyWrites(raw, Decide(f, term, false, timestamp, fingerprint).1))
    ensures Lookup(f, term).Unique?
    ensures var after := ApplyWrites(raw, Decide(f, term, false, timestamp, fingerprint).1);
      var d2 := Decide(g, term, false, timestamp2, fingerprint2);
      && d2 == (AlreadyCheckedOut(Decide(f, term, false, timestamp, fingerprint).0.name), [])
      && ApplyWrites(after, d2.1)[Lookup(f, term).row][f.layout.checkOut] == Some(timestamp)
  {
    CheckOutOnFrame(f, term, timestamp, fingerprint);
    var i := Lookup(f, term).row;
    var L := f.layout;
    var row := raw[i][L.checkOut := Some(timestamp)];
    assert ApplyWrites(raw, Decide(f, term, false, timestamp, fingerprint).1) == raw[i := row] by {
      CheckOutSuccess(raw, f, term, timestamp, fingerprint);
    }
    ReadAfterWrite(raw, f, g, i, row);
    LookupAgrees(f, g, term);
    assert g.rows[i][L.checkOut] == Some(timestamp);
    assert g.rows[i][L.name] == f.rows[i][L.name];
  }

  /**
   * Check-out neither reads nor writes device fingerprints: two tables that
   * differ only in their fingerprint column (or in having one) get the same
   * answer and the same writes, whatever device asks.
   */
  lemma CheckOutIgnoresFingerprints(f: Frame, g: Frame, term: string, timestamp: string, fingerprint1: string, fingerprint2: string)
    requires ValidFrame(f) && ValidFrame(g)
    requires g.layout == f.layout.(fingerprint := g.layout.fingerprint)
    requires f.labels == g.labels && |f.rows| == |g.rows|
    requires forall r, k :: (0 <= r < |f.rows| && 0 <= k < f.layout.width
      && f.layout.fingerprint != Some(k) && g.layout.fingerprint != Some(k)) ==> f.rows[r][k] == g.rows[r][k]
    ensures Decide(f, term, false, timestamp, fingerprint1) == Decide(g, term, false, timestamp, fingerprint2)
  {
    var L := f.layout;
    assert g.layout.id == L.id && g.layout.name == L.name && g.layout.checkOut == L.checkOut;
    forall r | 0 <= r < |f.rows|
      ensures f.rows[r][L.id] == g.rows[r][L.id] && f.rows[r][L.name] == g.rows[r][L.name]
      ensures f.rows[r][L.checkOut] == g.rows[r][L.checkOut]
    {
      assert L.fingerprint != Some(L.id) && g.layout.fingerprint != Some(L.id);
      assert L.fingerprint != Some(L.name) && g.layout.fingerprint != Some(L.name);
      assert L.fingerprint != Some(L.checkOut) && g.layout.fingerprint != Some(L.checkOut);
    }
    LookupAgrees(f, g, term);
  }

  /**
   * An empty EmployeeID cell reads as "nan", so the search terms "nan", "NaN"
   * and "NAN" match such a row by ID, and all three select one and the same
   * row: the first whose ID matches, which is this row or an earlier one.
   */
  lemma BlankIdMatchesNan(raw: seq<Row>, f: Frame, i: nat)
    requires ValidFrame(f) && ReadFrom(f, raw) && i < |raw| && raw[i][f.layout.id].None?
    ensures IdMatches(f, i, "nan") && IdMatches(f, i, "NaN") && IdMatches(f, i, "NAN")
    ensures Lookup(f, "nan").Unique?
    ensures var r := Lookup(f, "nan").row;
      r <= i && IdMatches(f, r, "nan") && forall j :: 0 <= j < r ==> !IdMatches(f, j, "nan")
    ensures Lookup(f, "NaN") == Lookup(f, "nan") && Lookup(f, "NAN") == Lookup(f, "nan")
  {
    StripNan();
    LowerNan();
    assert f.rows[i][f.layout.id] == Some("nan");
    LookupPrefersFirstId(f, "nan", i);
  }

  /** An empty DeviceFingerprint cell reads as "nan", so a device whose fingerprint is "nan" counts as used. */
  lemma BlankDeviceClaimsNan(raw: seq<Row>, f: Frame, k: nat)
    requires ValidFrame(f) && ReadFrom(f, raw) && f.layout.fingerprint.Some?
    requires k < |raw| && raw[k][f.layout.fingerprint.value].None?
    ensures FingerprintInUse(f, "nan")
  {
    StripNan();
    assert f.rows[k][f.layout.fingerprint.value] == Some("nan");
  }

  /** The three spellings a person might type all lower to the text of a NaN cell. */
  lemma LowerNan()
    ensures Lower("nan") == "nan" && Lower("NaN") == "nan" && Lower("NAN") == "nan"
  {
    assert Lower("an") == "an" && Lower("aN") == "an" && Lower("AN") == "an";
  }

  /** The text pandas gives a NaN cell has no white space to strip. */
  lemma StripNan()
    ensures Strip(AsText(None)) == "nan"
  {
    StripKeepsTrimmed("nan");
  }
}
