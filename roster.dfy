/**
 * The attendee worksheet as `get_data` reads it: a grid of cells under a
 * header row, the positions `get_loc` gives its columns, and the frame that
 * results once the EmployeeID and DeviceFingerprint columns are turned into
 * stripped text and the empty rows dropped.
 */
module Roster {
  import opened Wrappers
  import opened PyText

  /** One cell as pandas reads it: `None` for an empty cell (NaN), otherwise its text as stored. */
  type Cell = Option<string>
  type Row = seq<Cell>

  const EMPLOYEE_ID := "EmployeeID"
  const NAME := "Name"
  const TABLE_NO := "TableNo"
  const CHECK_IN_TIME := "CheckInTime"
  const CHECK_OUT_TIME := "CheckOutTime"
  const DEVICE_FINGERPRINT := "DeviceFingerprint"

  predicate DistinctNames(header: seq<string>) {
    forall i, j :: 0 <= i < j < |header| ==> header[i] != header[j]
  }

  /** The columns the decision reads; DeviceFingerprint is optional and checked for wherever it is used. */
  predicate HasSchema(header: seq<string>) {
    && DistinctNames(header)
    && EMPLOYEE_ID in header && NAME in header && TABLE_NO in header
    && CHECK_IN_TIME in header && CHECK_OUT_TIME in header
  }

  predicate Rectangular(width: nat, rows: seq<Row>) {
    forall i :: 0 <= i < |rows| ==> |rows[i]| == width
  }

  /** The data rows of the worksheet (sheet rows 2, 3, ...) under a header the decision can use. */
  predicate ValidSheet(header: seq<string>, raw: seq<Row>) {
    HasSchema(header) && Rectangular(|header|, raw)
  }

  /** `df.columns.get_loc(name)`: the position of the column called `name`. */
  function ColumnIndex(header: seq<string>, name: string): (c: nat)
    requires name in header
    ensures c < |header| && header[c] == name
    ensures forall k :: 0 <= k < c ==> header[k] != name
  {
    if header[0] == name then 0 else 1 + ColumnIndex(header[1..], name)
  }

  /** The positions of the columns the decision uses, and the number of columns. */
  datatype Layout = Layout(width: nat, id: nat, name: nat, tableNo: nat, checkIn: nat, checkOut: nat, fingerprint: Option<nat>)

  /** Every position is a column, and no two of the named columns share one. */
  predicate ValidLayout(L: Layout) {
    && L.id < L.width && L.name < L.width && L.tableNo < L.width && L.checkIn < L.width && L.checkOut < L.width
    && L.id != L.name && L.id != L.tableNo && L.id != L.checkIn && L.id != L.checkOut
    && L.name != L.tableNo && L.name != L.checkIn && L.name != L.checkOut
    && L.tableNo != L.checkIn && L.tableNo != L.checkOut
    && L.checkIn != L.checkOut
    && (L.fingerprint.Some? ==>
          var fp := L.fingerprint.value;
          fp < L.width && fp != L.id && fp != L.name && fp != L.tableNo && fp != L.checkIn && fp != L.checkOut)
  }

  /** `get_loc` of each column the decision uses; the fingerprint column only if the sheet has one. */
  function LayoutOf(header: seq<string>): (L: Layout)
    requires HasSchema(header)
    ensures ValidLayout(L) && L.width == |header|
    ensures header[L.id] == EMPLOYEE_ID && header[L.name] == NAME && header[L.tableNo] == TABLE_NO
    ensures header[L.checkIn] == CHECK_IN_TIME && header[L.checkOut] == CHECK_OUT_TIME
    ensures L.fingerprint.Some? <==> DEVICE_FINGERPRINT in header
    ensures L.fingerprint.Some? ==> header[L.fingerprint.value] == DEVICE_FINGERPRINT
  {
    Layout(|header|, ColumnIndex(header, EMPLOYEE_ID), ColumnIndex(header, NAME), ColumnIndex(header, TABLE_NO),
           ColumnIndex(header, CHECK_IN_TIME), ColumnIndex(header, CHECK_OUT_TIME),
           if DEVICE_FINGERPRINT in header then Some(ColumnIndex(header, DEVICE_FINGERPRINT)) else None)
  }

  // ---------------------------------------------------------------------------
  // get_data: reading the worksheet into a frame
  // ---------------------------------------------------------------------------

  /** `astype(str)` on a cell: NaN becomes the text "nan". */
  function AsText(c: Cell): string {
    match c
    case None => "nan"
    case Some(s) => s
  }

  /** `astype(str).str.strip()` on one cell. */
  function NormalizeCell(c: Cell): Cell {
    Some(Strip(AsText(c)))
  }

  /** The columns `get_data` normalises: EmployeeID and, when present, DeviceFingerprint. */
  predicate IsStrippedColumn(L: Layout, k: nat) {
    k == L.id || L.fingerprint == Some(k)
  }

  function NormalizeRows(L: Layout, raw: seq<Row>): (rows: seq<Row>)
    requires Rectangular(L.width, raw)
    ensures |rows| == |raw| && Rectangular(L.width, rows)
  {
    seq(|raw|, i requires 0 <= i < |raw| =>
      seq(L.width, k requires 0 <= k < L.width =>
        if IsStrippedColumn(L, k) then NormalizeCell(raw[i][k]) else raw[i][k]))
  }

  predicate AllMissing(row: Row) {
    forall k :: 0 <= k < |row| ==> row[k].None?
  }

  /**
   * `labels` and `kept` are the rows of `rows` that hold at least one value,
   * in order, each with its position in `rows`.
   */
  predicate Kept(rows: seq<Row>, labels: seq<nat>, kept: seq<Row>) {
    && |labels| == |kept|
    && (forall k :: 0 <= k < |labels| ==> labels[k] < |rows| && kept[k] == rows[labels[k]] && !AllMissing(kept[k]))
    && (forall i :: 0 <= i < |rows| && !AllMissing(rows[i]) ==> i in labels)
    && (forall j, k :: 0 <= j < k < |labels| ==> labels[j] < labels[k])
  }

  /**
   * `dropna(how='all')`: the rows that hold at least one value, in order,
   * each with its label (its position among the data rows).
   */
  function DropMissing(rows: seq<Row>): (r: (seq<nat>, seq<Row>))
    ensures Kept(rows, r.0, r.1)
  {
    if rows == [] then ([], [])
    else
      var n := |rows| - 1;
      var kept := DropMissing(rows[..n]);
      KeptStep(rows, kept.0, kept.1);
      if AllMissing(rows[n]) then kept else (kept.0 + [n], kept.1 + [rows[n]])
  }

  /** One more row: an empty one is skipped, any other is kept under its position. */
  lemma KeptStep(rows: seq<Row>, labels: seq<nat>, kept: seq<Row>)
    requires rows != [] && Kept(rows[..|rows| - 1], labels, kept)
    ensures AllMissing(rows[|rows| - 1]) ==> Kept(rows, labels, kept)
    ensures !AllMissing(rows[|rows| - 1]) ==> Kept(rows, labels + [|rows| - 1], kept + [rows[|rows| - 1]])
  {
    var n := |rows| - 1;
    assert forall i :: 0 <= i < n ==> rows[..n][i] == rows[i];
  }

  /** The labels 0, 1, ..., n - 1 of a frame read from n data rows. */
  function Positions(n: nat): (r: seq<nat>)
    ensures |r| == n && forall i :: 0 <= i < n ==> r[i] == i
  {
    if n == 0 then [] else Positions(n - 1) + [n - 1]
  }

  /** When no row is empty, `dropna` keeps every row under its own position. */
  lemma {:induction false} DropMissingKeepsAll(rows: seq<Row>)
    requires forall i :: 0 <= i < |rows| ==> !AllMissing(rows[i])
    ensures DropMissing(rows) == (Positions(|rows|), rows)
  {
    if rows != [] {
      var n := |rows| - 1;
      assert !AllMissing(rows[n]);
      DropMissingKeepsAll(rows[..n]);
      assert DropMissing(rows) == (DropMissing(rows[..n]).0 + [n], DropMissing(rows[..n]).1 + [rows[n]]);
      assert rows[..n] + [rows[n]] == rows;
    }
  }

  /** The in-memory table: where the columns are, the row labels and the rows. */
  datatype Frame = Frame(layout: Layout, labels: seq<nat>, rows: seq<Row>)

  predicate ValidFrame(f: Frame) {
    ValidLayout(f.layout) && |f.labels| == |f.rows| && Rectangular(f.layout.width, f.rows)
  }

  /** `get_data`: strip the ID and fingerprint columns, then drop the rows that hold nothing. */
  function GetData(header: seq<string>, raw: seq<Row>): (f: Frame)
    requires ValidSheet(header, raw)
    ensures ValidFrame(f) && f.layout == LayoutOf(header)
  {
    var L := LayoutOf(header);
    var kept := DropMissing(NormalizeRows(L, raw));
    Frame(L, kept.0, kept.1)
  }

  /**
   * `f` is the frame read from these data rows: every row, under its own
   * position as label, with the ID and fingerprint cells normalised and every
   * other cell as the sheet holds it.
   */
  predicate ReadFrom(f: Frame, raw: seq<Row>) {
    && |f.rows| == |raw| && |f.labels| == |raw| && (forall i :: 0 <= i < |raw| ==> f.labels[i] == i)
    && Rectangular(f.layout.width, raw) && Rectangular(f.layout.width, f.rows)
    && forall i, k {:trigger f.rows[i][k]} :: 0 <= i < |raw| && 0 <= k < f.layout.width ==>
         f.rows[i][k] == (if IsStrippedColumn(f.layout, k) then NormalizeCell(raw[i][k]) else raw[i][k])
  }

  /**
   * Because an empty ID cell reads as the text "nan", no row of the sheet is
   * ever empty once read, so `dropna` drops nothing and `get_data` reads every
   * row under its own position: sheet row `label + 2` is the row's own.
   */
  lemma GetDataReadsSheet(header: seq<string>, raw: seq<Row>)
    requires ValidSheet(header, raw)
    ensures ReadFrom(GetData(header, raw), raw)
  {
    var L := LayoutOf(header);
    var rows := NormalizeRows(L, raw);
    forall i | 0 <= i < |rows| ensures !AllMissing(rows[i]) {
      assert rows[i][L.id].Some?;
    }
    DropMissingKeepsAll(rows);
  }

  /** Reading keeps one frame row per sheet row. */
  lemma GetDataKeepsRows(header: seq<string>, raw: seq<Row>)
    requires ValidSheet(header, raw)
    ensures |GetData(header, raw).rows| == |raw|
  {
    GetDataReadsSheet(header, raw);
  }
}
