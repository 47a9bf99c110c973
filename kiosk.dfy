/**
 * The kiosk page: the availability gate in front of the Confirm button, the
 * search box, the feedback shown on the next render, and the attendee
 * worksheet whose cells a successful request updates in place.
 */
module Kiosk {
  import opened Wrappers
  import opened PyText
  import opened EventSettings
  import opened Roster
  import opened Decision

  /**
   * What pressing Confirm decides: the feedback left for the next render
   * (`None`: none is set) and the cells written. The term arrives stripped
   * from the search box. Outside the window nothing else is looked at; an
   * empty search term is refused next; only then is the sheet read, and a
   * sheet without data rows is read as an empty frame, on which nothing
   * happens.
   */
  function Respond(settings: Settings, now: Time, term: string, header: seq<string>, raw: seq<Row>,
                   timestamp: string, fingerprint: string): (Option<Feedback>, seq<CellWrite>)
    requires Strip(term) == term
    requires InWindow(settings, now) && term != [] ==> ValidSheet(header, raw)
  {
    if !InWindow(settings, now) then (Some(OutsideWindow), [])
    else if term == [] then (Some(EmptySearch), [])
    else
      var df := GetData(header, raw);
      if df.rows == [] then (None, [])
      else
        var d := Decide(df, term, IsCheckInMode(settings), timestamp, fingerprint);
        (Some(d.0), d.1)
  }

  /** How `Respond` unfolds, case by case, with the frame read from the sheet named once. */
  lemma RespondCases(settings: Settings, now: Time, term: string, header: seq<string>, raw: seq<Row>,
                     timestamp: string, fingerprint: string)
    requires Strip(term) == term
    requires InWindow(settings, now) && term != [] ==> ValidSheet(header, raw)
    ensures var r := Respond(settings, now, term, header, raw, timestamp, fingerprint);
      && (!InWindow(settings, now) ==> r == (Some(OutsideWindow), []))
      && (InWindow(settings, now) && term == [] ==> r == (Some(EmptySearch), []))
    ensures InWindow(settings, now) && term != [] ==>
      var r := Respond(settings, now, term, header, raw, timestamp, fingerprint);
      var d := Decide(GetData(header, raw), term, IsCheckInMode(settings), timestamp, fingerprint);
      && (raw == [] ==> r == (None, []))
      && (raw != [] ==> r == (Some(d.0), d.1))
  {
    if InWindow(settings, now) && term != [] {
      GetDataKeepsRows(header, raw);
    }
  }

  /**
   * The order of the gate: "outside the window" is reported exactly when the
   * clock is outside it, whatever was typed; "enter a term" exactly when the
   * window is open and nothing was typed; no feedback at all exactly when the
   * sheet has no data rows; and cells are written only past every check, on
   * a success.
   */
  lemma GateOutcomes(settings: Settings, now: Time, term: string, header: seq<string>, raw: seq<Row>,
                     timestamp: string, fingerprint: string)
    requires Strip(term) == term
    requires InWindow(settings, now) && term != [] ==> ValidSheet(header, raw)
    ensures var r := Respond(settings, now, term, header, raw, timestamp, fingerprint);
      && (r.0 == Some(OutsideWindow) <==> !InWindow(settings, now))
      && (r.0 == Some(EmptySearch) <==> InWindow(settings, now) && term == [])
      && (r.0 == None <==> InWindow(settings, now) && term != [] && raw == [])
      && (r.1 != [] ==> InWindow(settings, now) && term != [] && raw != [] && r.0.Some? && r.0.value.Kind() == Success)
  {
    RespondCases(settings, now, term, header, raw, timestamp, fingerprint);
    if InWindow(settings, now) && term != [] {
      WritesOnlyOnSuccess(GetData(header, raw), term, IsCheckInMode(settings), timestamp, fingerprint);
    }
  }

  /**
   * A check-in reported at the kiosk, on the sheet itself: the window was open,
   * the mode is check-in, the person reported is the one the term selects, and
   * the sheet afterwards differs from before only in that person's row, stamped
   * with the timestamp and the device.
   */
  lemma ConfirmedCheckIn(settings: Settings, now: Time, term: string, header: seq<string>, raw: seq<Row>,
                         timestamp: string, fingerprint: string)
    requires Strip(term) == term && ValidSheet(header, raw)
    requires var r := Respond(settings, now, term, header, raw, timestamp, fingerprint); r.0.Some? && r.0.value.CheckedIn?
    ensures InWindow(settings, now) && IsCheckInMode(settings)
    ensures Lookup(GetData(header, raw), term).Unique? && Lookup(GetData(header, raw), term).row < |raw|
    ensures var i := Lookup(GetData(header, raw), term).row;
      var L := LayoutOf(header);
      var r := Respond(settings, now, term, header, raw, timestamp, fingerprint);
      && r.0 == Some(CheckedIn(raw[i][L.name], raw[i][L.tableNo]))
      && IsBlank(raw[i][L.checkIn])
      && ApplyWrites(raw, r.1) == raw[i := Stamped(L, raw[i], timestamp, fingerprint)]
  {
    RespondCases(settings, now, term, header, raw, timestamp, fingerprint);
    assert InWindow(settings, now) && term != [] && raw != [];
    var d := Decide(GetData(header, raw), term, IsCheckInMode(settings), timestamp, fingerprint);
    assert Respond(settings, now, term, header, raw, timestamp, fingerprint) == (Some(d.0), d.1);
    assert d.0 == Respond(settings, now, term, header, raw, timestamp, fingerprint).0.value;
    WritesOnlyOnSuccess(GetData(header, raw), term, IsCheckInMode(settings), timestamp, fingerprint);
    assert IsCheckInMode(settings);
    CheckInOnSheet(header, raw, term, timestamp, fingerprint);
  }

  lemma CheckInOnSheet(header: seq<string>, raw: seq<Row>, term: string, timestamp: string, fingerprint: string)
    requires ValidSheet(header, raw)
    requires Decide(GetData(header, raw), term, true, timestamp, fingerprint).0.CheckedIn?
    ensures Lookup(GetData(header, raw), term).Unique? && Lookup(GetData(header, raw), term).row < |raw|
    ensures var i := Lookup(GetData(header, raw), term).row;
      var L := LayoutOf(header);
      var d := Decide(GetData(header, raw), term, true, timestamp, fingerprint);
      && d.0 == CheckedIn(raw[i][L.name], raw[i][L.tableNo])
      && IsBlank(raw[i][L.checkIn])
      && ApplyWrites(raw, d.1) == raw[i := Stamped(L, raw[i], timestamp, fingerprint)]
  {
    GetDataReadsSheet(header, raw);
    CheckInSuccess(raw, GetData(header, raw), term, timestamp, fingerprint);
  }

  /**
   * A check-out reported at the kiosk, on the sheet itself: the window was
   * open, the mode is not check-in, and only the selected person's
   * CheckOutTime changed, to the timestamp.
   */
  lemma ConfirmedCheckOut(settings: Settings, now: Time, term: string, header: seq<string>, raw: seq<Row>,
                          timestamp: string, fingerprint: string)
    requires Strip(term) == term && ValidSheet(header, raw)
    requires var r := Respond(settings, now, term, header, raw, timestamp, fingerprint); r.0.Some? && r.0.value.CheckedOut?
    ensures InWindow(settings, now) && !IsCheckInMode(settings)
    ensures Lookup(GetData(header, raw), term).Unique? && Lookup(GetData(header, raw), term).row < |raw|
    ensures var i := Lookup(GetData(header, raw), term).row;
      var L := LayoutOf(header);
      var r := Respond(settings, now, term, header, raw, timestamp, fingerprint);
      && r.0 == Some(CheckedOut(raw[i][L.name]))
      && IsBlank(raw[i][L.checkOut])
      && ApplyWrites(raw, r.1) == raw[i := raw[i][L.checkOut := Some(timestamp)]]
  {
    RespondCases(settings, now, term, header, raw, timestamp, fingerprint);
    assert InWindow(settings, now) && term != [] && raw != [];
    var d := Decide(GetData(header, raw), term, IsCheckInMode(settings), timestamp, fingerprint);
    assert Respond(settings, now, term, header, raw, timestamp, fingerprint) == (Some(d.0), d.1);
    assert d.0 == Respond(settings, now, term, header, raw, timestamp, fingerprint).0.value;
    WritesOnlyOnSuccess(GetData(header, raw), term, IsCheckInMode(settings), timestamp, fingerprint);
    assert !IsCheckInMode(settings);
    CheckOutOnSheet(header, raw, term, timestamp, fingerprint);
  }

  lemma CheckOutOnSheet(header: seq<string>, raw: seq<Row>, term: string, timestamp: string, fingerprint: string)
    requires ValidSheet(header, raw)
    requires Decide(GetData(header, raw), term, false, timestamp, fingerprint).0.CheckedOut?
    ensures Lookup(GetData(header, raw), term).Unique? && Lookup(GetData(header, raw), term).row < |raw|
    ensures var i := Lookup(GetData(header, raw), term).row;
      var L := LayoutOf(header);
      var d := Decide(GetData(header, raw), term, false, timestamp, fingerprint);
      && d.0 == CheckedOut(raw[i][L.name])
      && IsBlank(raw[i][L.checkOut])
      && ApplyWrites(raw, d.1) == raw[i := raw[i][L.checkOut := Some(timestamp)]]
  {
    GetDataReadsSheet(header, raw);
    CheckOutSuccess(raw, GetData(header, raw), term, timestamp, fingerprint);
  }

  /**
   * The attendee worksheet: its header row and its data rows, `cells[0]` being
   * sheet row 2. Any header is allowed; the columns are looked up only when
   * the sheet is read.
   */
  class Worksheet {
    const header: seq<string>
    const cells: array<Row>

    /** Every data row is as wide as the header. */
    predicate Valid()
      reads this, cells
    {
      Rectangular(|header|, cells[..])
    }

    constructor (header: seq<string>, rows: seq<Row>)
      requires Rectangular(|header|, rows)
      ensures Valid() && this.header == header && cells[..] == rows && fresh(cells)
    {
      this.header := header;
      cells := new Row[|rows|](i requires 0 <= i < |rows| => rows[i]);
    }

    /** `get_data`: the frame read from the current cells. */
    function Data(): (df: Frame)
      requires Valid() && HasSchema(header)
      reads this, cells
      ensures ValidFrame(df) && df.layout == LayoutOf(header) && ReadFrom(df, cells[..])
    {
      GetDataReadsSheet(header, cells[..]);
      GetData(header, cells[..])
    }

    /** `update_cell(row, col, value)` in 1-based sheet coordinates. */
    method UpdateCell(row: nat, col: nat, value: string)
      requires Valid()
      modifies cells
      ensures Valid()
      ensures cells[..] == ApplyWrite(old(cells[..]), CellWrite(row, col, value))
    {
      if 2 <= row < cells.Length + 2 && 1 <= col <= |cells[row - 2]| {
        cells[row - 2] := cells[row - 2][col - 1 := Some(value)];
      }
    }
  }

  /** One kiosk session: the text in the search box and the feedback waiting to be shown. */
  class Session {
    var searchTerm: string
    var feedback: Option<Feedback>
    const sheet: Worksheet

    /** The search term is kept stripped, as the text box hands it over. */
    predicate Valid()
      reads this, sheet, sheet.cells
    {
      sheet.Valid() && Strip(searchTerm) == searchTerm
    }

    constructor (sheet: Worksheet)
      requires sheet.Valid()
      ensures Valid() && this.sheet == sheet && searchTerm == [] && feedback == None
    {
      this.sheet := sheet;
      searchTerm := [];
      feedback := None;
    }

    /** The search box: whatever is typed is stored stripped. */
    method EnterSearch(input: string)
      requires Valid()
      modifies this
      ensures Valid() && searchTerm == Strip(input) && feedback == old(feedback)
    {
      StripIdempotent(input);
      searchTerm := Strip(input);
    }

    /** The page render: the waiting feedback is shown once and cleared. */
    method TakeFeedback() returns (shown: Option<Feedback>)
      requires Valid()
      modifies this
      ensures Valid() && shown == old(feedback) && feedback == None && searchTerm == old(searchTerm)
    {
      shown := feedback;
      feedback := None;
    }

    /**
     * `process_request` on the frame `df`: the feedback is the decision's and
     * the sheet receives the decision's writes, in order, through `update_cell`.
     */
    method ProcessRequest(df: Frame, settings: Settings, timestamp: string, fingerprint: string)
      requires Valid() && ValidFrame(df)
      modifies this, sheet.cells
      ensures Valid() && searchTerm == old(searchTerm)
      ensures var d := Decide(df, old(searchTerm), IsCheckInMode(settings), timestamp, fingerprint);
        feedback == Some(d.0) && sheet.cells[..] == ApplyWrites(old(sheet.cells[..]), d.1)
    {
      match Lookup(df, searchTerm)
      case NoMatch =>
        feedback := Some(NotFound);
        NoWrites(sheet.cells[..]);
      case SeveralNames =>
        feedback := Some(AmbiguousName);
        NoWrites(sheet.cells[..]);
      case Unique(i) =>
        if IsCheckInMode(settings) {
          CheckInRow(df, i, timestamp, fingerprint);
        } else {
          CheckOutRow(df, i, timestamp);
        }
    }

    /** The check-in branch of `process_request` on the selected row `i`. */
    method CheckInRow(df: Frame, i: nat, timestamp: string, fingerprint: string)
      requires Valid() && ValidFrame(df) && i < |df.rows|
      modifies this, sheet.cells
      ensures Valid() && searchTerm == old(searchTerm)
      ensures var d := CheckInAt(df, i, timestamp, fingerprint);
        feedback == Some(d.0) && sheet.cells[..] == ApplyWrites(old(sheet.cells[..]), d.1)
    {
      var L := df.layout;
      var row := df.rows[i];
      var sheetRow := df.labels[i] + 2;
      ghost var before := sheet.cells[..];
      if !IsBlank(row[L.checkIn]) {
        feedback := Some(AlreadyCheckedIn(row[L.name]));
        NoWrites(before);
      } else if L.fingerprint.Some? && FingerprintInUse(df, fingerprint) {
        feedback := Some(DeviceAlreadyUsed);
        NoWrites(before);
      } else {
        sheet.UpdateCell(sheetRow, L.checkIn + 1, timestamp);
        if L.fingerprint.Some? {
          sheet.UpdateCell(sheetRow, L.fingerprint.value + 1, fingerprint);
        }
        CheckInWritesApplied(before, L, df.labels[i], timestamp, fingerprint);
        feedback := Some(CheckedIn(row[L.name], row[L.tableNo]));
        assert CheckInAt(df, i, timestamp, fingerprint) == (feedback.value, CheckInWrites(L, df.labels[i], timestamp, fingerprint));
      }
    }

    /** The check-out branch of `process_request` on the selected row `i`. */
    method CheckOutRow(df: Frame, i: nat, timestamp: string)
      requires Valid() && ValidFrame(df) && i < |df.rows|
      modifies this, sheet.cells
      ensures Valid() && searchTerm == old(searchTerm)
      ensures var d := CheckOutAt(df, i, timestamp);
        feedback == Some(d.0) && sheet.cells[..] == ApplyWrites(old(sheet.cells[..]), d.1)
    {
      var L := df.layout;
      var row := df.rows[i];
      ghost var before := sheet.cells[..];
      if !IsBlank(row[L.checkOut]) {
        feedback := Some(AlreadyCheckedOut(row[L.name]));
        NoWrites(before);
      } else {
        sheet.UpdateCell(df.labels[i] + 2, L.checkOut + 1, timestamp);
        OneWrite(before, CellWrite(df.labels[i] + 2, L.checkOut + 1, timestamp));
        feedback := Some(CheckedOut(row[L.name]));
      }
    }

    /**
     * The Confirm button: the gate, then `process_request` on the frame read
     * from the sheet when it has data rows; the search box is emptied in
     * every case. `now` and `timestamp` are the clock's readings.
     */
    method Confirm(settings: Settings, now: Time, timestamp: string, fingerprint: string)
      requires Valid()
      requires InWindow(settings, now) && searchTerm != [] ==> ValidSheet(sheet.header, sheet.cells[..])
      modifies this, sheet.cells
      ensures Valid() && searchTerm == []
      ensures var r := Respond(settings, now, old(searchTerm), sheet.header, old(sheet.cells[..]), timestamp, fingerprint);
        && sheet.cells[..] == ApplyWrites(old(sheet.cells[..]), r.1)
        && feedback == (if r.0.Some? then r.0 else old(feedback))
    {
      if !InWindow(settings, now) {
        feedback := Some(OutsideWindow);
      } else if searchTerm == [] {
        feedback := Some(EmptySearch);
      } else {
        var df := sheet.Data();
        if df.rows != [] {
          ProcessRequest(df, settings, timestamp, fingerprint);
        }
      }
      searchTerm := [];
      StripKeepsTrimmed([]);
    }
  }

  lemma NoWrites(raw: seq<Row>)
    ensures ApplyWrites(raw, []) == raw
  {
  }

  lemma OneWrite(raw: seq<Row>, w: CellWrite)
    ensures ApplyWrites(raw, [w]) == ApplyWrite(raw, w)
  {
    assert ApplyWrites(raw, [w]) == ApplyWrites(ApplyWrite(raw, w), []);
  }

  /** The check-in writes, applied one `update_cell` at a time. */
  lemma CheckInWritesApplied(raw: seq<Row>, L: Layout, r: nat, timestamp: string, fingerprint: string)
    ensures var once := ApplyWrite(raw, CellWrite(r + 2, L.checkIn + 1, timestamp));
      ApplyWrites(raw, CheckInWrites(L, r, timestamp, fingerprint))
      == if L.fingerprint.Some? then ApplyWrite(once, CellWrite(r + 2, L.fingerprint.value + 1, fingerprint)) else once
  {
    var w1 := CellWrite(r + 2, L.checkIn + 1, timestamp);
    if L.fingerprint.Some? {
      assert CheckInWrites(L, r, timestamp, fingerprint) == [w1, CellWrite(r + 2, L.fingerprint.value + 1, fingerprint)];
      TwoWrites(raw, w1, CellWrite(r + 2, L.fingerprint.value + 1, fingerprint));
    } else {
      assert CheckInWrites(L, r, timestamp, fingerprint) == [w1];
      OneWrite(raw, w1);
    }
  }

  lemma TwoWrites(raw: seq<Row>, w1: CellWrite, w2: CellWrite)
    ensures ApplyWrites(raw, [w1, w2]) == ApplyWrite(ApplyWrite(raw, w1), w2)
  {
    assert [w1, w2][1..] == [w2];
    OneWrite(ApplyWrite(raw, w1), w2);
  }
}
