/**
 * Event settings: the mode (check-in or check-out) and the daily window in
 * which the kiosk accepts requests. They live in the first data row of the
 * "Settings" worksheet, cells A2 (mode), B2 (start) and C2 (end), the times
 * written as `HH:MM`. Reading falls back to the defaults (Check-in, 09:00,
 * 17:00) whenever anything goes wrong.
 */
module EventSettings {
  import opened Wrappers

  /** A Python `datetime.time` without time zone: the current time carries seconds and microseconds. */
  datatype Time = Time(hour: nat, minute: nat, second: nat, micro: nat)

  predicate ValidTime(t: Time) {
    t.hour < 24 && t.minute < 60 && t.second < 60 && t.micro < 1000000
  }

  /** `a <= b` on Python times: the fields are compared in order, hour first. */
  predicate NotAfter(a: Time, b: Time) {
    || a.hour < b.hour
    || (a.hour == b.hour && a.minute < b.minute)
    || (a.hour == b.hour && a.minute == b.minute && a.second < b.second)
    || (a.hour == b.hour && a.minute == b.minute && a.second == b.second && a.micro <= b.micro)
  }

  /** The same time with seconds and microseconds dropped, which is all an `HH:MM` cell keeps. */
  function AtMinute(t: Time): Time {
    Time(t.hour, t.minute, 0, 0)
  }

  const CHECK_IN_MODE := "Check-in"
  const CHECK_OUT_MODE := "Check-out"

  /** The mode is whatever cell A2 holds (possibly nothing); only the exact text "Check-in" selects check-in. */
  datatype Settings = Settings(mode: Option<string>, start: Time, end: Time)

  const DEFAULT_SETTINGS := Settings(Some(CHECK_IN_MODE), Time(9, 0, 0, 0), Time(17, 0, 0, 0))

  predicate IsCheckInMode(s: Settings) {
    s.mode == Some(CHECK_IN_MODE)
  }

  /**
   * Of the admin panel's two modes, "Check-in" selects check-in and
   * "Check-out" check-out; an empty A2, or any other text, also selects
   * check-out. The defaults are check-in.
   */
  lemma ModeSelection(s: Settings)
    ensures s.mode == Some(CHECK_OUT_MODE) ==> !IsCheckInMode(s)
    ensures s.mode.None? ==> !IsCheckInMode(s)
    ensures IsCheckInMode(s) <==> s.mode.Some? && s.mode.value == "Check-in"
    ensures IsCheckInMode(DEFAULT_SETTINGS)
  {
  }

  /** The availability gate: `start_time <= now <= end_time`, on the time of day only. */
  predicate InWindow(s: Settings, now: Time) {
    NotAfter(s.start, now) && NotAfter(now, s.end)
  }

  /** A window whose end comes before its start (one meant to cross midnight) is never open. */
  lemma InvertedWindowNeverOpen(s: Settings, now: Time)
    requires !NotAfter(s.start, s.end)
    ensures !InWindow(s, now)
  {
  }

  /** The default window admits 09:00:00 through 17:00:00 exactly: one microsecond later it is closed. */
  lemma DefaultWindowBounds()
    ensures InWindow(DEFAULT_SETTINGS, Time(9, 0, 0, 0))
    ensures InWindow(DEFAULT_SETTINGS, Time(17, 0, 0, 0))
    ensures !InWindow(DEFAULT_SETTINGS, Time(8, 59, 59, 999999))
    ensures !InWindow(DEFAULT_SETTINGS, Time(17, 0, 0, 1))
  {
  }

  /** Microseconds since midnight: an independent reading of a time of day as one number. */
  function Micros(t: Time): nat {
    (((t.hour * 60 + t.minute) * 60 + t.second) * 1000000) + t.micro
  }

  /**
   * The field-by-field comparison Python applies to valid times is the order
   * of their microseconds since midnight, so the window is an interval of
   * that number.
   */
  lemma NotAfterIsMicrosOrder(a: Time, b: Time)
    requires ValidTime(a) && ValidTime(b)
    ensures NotAfter(a, b) <==> Micros(a) <= Micros(b)
  {
  }

  /** The availability gate admits exactly the times whose microsecond count lies in `[start, end]`. */
  lemma InWindowIsInterval(s: Settings, now: Time)
    requires ValidTime(s.start) && ValidTime(s.end) && ValidTime(now)
    ensures InWindow(s, now) <==> Micros(s.start) <= Micros(now) <= Micros(s.end)
  {
    NotAfterIsMicrosOrder(s.start, now);
    NotAfterIsMicrosOrder(now, s.end);
  }

  predicate IsDigit(c: char) {
    '0' <= c <= '9'
  }

  function DigitValue(c: char): nat
    requires IsDigit(c)
  {
    c as int - '0' as int
  }

  function DigitChar(d: nat): char
    requires d < 10
  {
    ('0' as int + d) as char
  }

  /** The `%H` field of `strptime`: one digit, or two digits from 00 to 23. */
  function HourField(s: string): (r: Option<nat>)
    ensures r.Some? ==> r.value < 24
  {
    if |s| == 1 && IsDigit(s[0]) then Some(DigitValue(s[0]))
    else if |s| == 2 && (('0' <= s[0] <= '1' && IsDigit(s[1])) || (s[0] == '2' && '0' <= s[1] <= '3'))
    then Some(10 * DigitValue(s[0]) + DigitValue(s[1]))
    else None
  }

  /** The `%M` field of `strptime`: one digit, or two digits from 00 to 59. */
  function MinuteField(s: string): (r: Option<nat>)
    ensures r.Some? ==> r.value < 60
  {
    if |s| == 1 && IsDigit(s[0]) then Some(DigitValue(s[0]))
    else if |s| == 2 && '0' <= s[0] <= '5' && IsDigit(s[1])
    then Some(10 * DigitValue(s[0]) + DigitValue(s[1]))
    else None
  }

  /**
   * `datetime.strptime(s, '%H:%M').time()`: an hour field, a colon and a minute
   * field making up the whole text; anything else raises, which is `None` here.
   */
  function ParseHHMM(s: string): (r: Option<Time>)
    ensures r.Some? ==> ValidTime(r.value) && r.value == AtMinute(r.value)
  {
    var colon := if |s| >= 2 && s[1] == ':' then 1 else 2;
    if |s| <= colon || s[colon] != ':' then None
    else
      match (HourField(s[..colon]), MinuteField(s[colon + 1..]))
      case (Some(h), Some(m)) => Some(Time(h, m, 0, 0))
      case _ => None
  }

  /** `t.strftime('%H:%M')`: hour and minute, each as two digits. */
  function FormatHHMM(t: Time): (s: string)
    requires ValidTime(t)
    ensures |s| == 5 && s[2] == ':'
    ensures forall i :: 0 <= i < 5 && i != 2 ==> IsDigit(s[i])
  {
    [DigitChar(t.hour / 10), DigitChar(t.hour % 10), ':', DigitChar(t.minute / 10), DigitChar(t.minute % 10)]
  }

  /** Reading back what was written gives the same hour and minute. */
  lemma ParseFormat(t: Time)
    requires ValidTime(t)
    ensures ParseHHMM(FormatHHMM(t)) == Some(AtMinute(t))
  {
    var s := FormatHHMM(t);
    assert s[..2] == [DigitChar(t.hour / 10), DigitChar(t.hour % 10)];
    assert s[3..] == [DigitChar(t.minute / 10), DigitChar(t.minute % 10)];
  }

  /**
   * Every accepted text is the two-digit form of the time it denotes, with at
   * most the leading zero of the hour and of the minute left out; and it reads
   * as the same time as that two-digit form.
   */
  lemma ParseIsCanonical(s: string)
    requires ParseHHMM(s).Some?
    ensures var f := FormatHHMM(ParseHHMM(s).value);
      || s == f
      || (f[0] == '0' && s == f[1..])
      || (f[3] == '0' && s == f[..3] + f[4..])
      || (f[0] == '0' && f[3] == '0' && s == [f[1], ':', f[4]])
    ensures ParseHHMM(FormatHHMM(ParseHHMM(s).value)) == ParseHHMM(s)
  {
    var t := ParseHHMM(s).value;
    var f := FormatHHMM(t);
    var colon := if |s| >= 2 && s[1] == ':' then 1 else 2;
    var hh, mm := s[..colon], s[colon + 1..];
    assert s == hh + [':'] + mm;
    assert f[..2] == [DigitChar(t.hour / 10), DigitChar(t.hour % 10)];
    assert f[3..] == [DigitChar(t.minute / 10), DigitChar(t.minute % 10)];
    ParseFormat(t);
  }

  /** `strptime` accepts single-digit fields, but rejects an hour of 24 and a text with seconds. */
  lemma ParseExamples()
    ensures ParseHHMM("9:05") == Some(Time(9, 5, 0, 0))
    ensures ParseHHMM("17:00") == Some(Time(17, 0, 0, 0))
    ensures ParseHHMM("24:00") == None
    ensures ParseHHMM("09:00:00") == None
    ensures ParseHHMM("") == None
  {
    assert "9:05"[..1] == "9" && "9:05"[2..] == "05";
    assert "17:00"[..2] == "17" && "17:00"[3..] == "00";
    assert "24:00"[..2] == "24";
    assert "09:00:00"[..2] == "09" && "09:00:00"[3..] == "00:00";
  }

  /** The three cells A2, B2, C2 of the "Settings" worksheet; an empty cell is `None`. */
  datatype SettingsRow = SettingsRow(a2: Option<string>, b2: Option<string>, c2: Option<string>)

  /** What `save_settings` writes into A2:C2. */
  function EncodeRow(mode: string, start: Time, end: Time): SettingsRow
    requires ValidTime(start) && ValidTime(end)
  {
    SettingsRow(Some(mode), Some(FormatHHMM(start)), Some(FormatHHMM(end)))
  }

  /** How `get_settings` reads A2:C2: both times must parse, otherwise the defaults. */
  function DecodeRow(row: SettingsRow): (s: Settings)
    ensures ValidTime(s.start) && ValidTime(s.end)
    ensures s == DEFAULT_SETTINGS || s.mode == row.a2
  {
    if row.b2.None? || row.c2.None? then DEFAULT_SETTINGS
    else
      match (ParseHHMM(row.b2.value), ParseHHMM(row.c2.value))
      case (Some(start), Some(end)) => Settings(row.a2, start, end)
      case _ => DEFAULT_SETTINGS
  }

  /** Settings survive a save and a load, to the minute. */
  lemma DecodeEncode(mode: string, start: Time, end: Time)
    requires ValidTime(start) && ValidTime(end)
    ensures DecodeRow(EncodeRow(mode, start, end)) == Settings(Some(mode), AtMinute(start), AtMinute(end))
  {
    ParseFormat(start);
    ParseFormat(end);
  }

  /** A start or end cell that is empty or does not parse as `HH:MM` yields the defaults, mode included. */
  lemma DecodeFallsBack(row: SettingsRow)
    requires row.b2.None? || row.c2.None? || ParseHHMM(row.b2.value).None? || ParseHHMM(row.c2.value).None?
    ensures DecodeRow(row) == DEFAULT_SETTINGS
  {
  }

  /** What `save_settings` reports. */
  datatype SaveFeedback = NoClient | Saved | SaveFailed

  /**
   * The "Settings" worksheet. `row` is `None` when the worksheet cannot be
   * opened, which makes every read fall back and every save fail.
   */
  class SettingsSheet {
    var row: Option<SettingsRow>

    constructor (row: Option<SettingsRow>)
      ensures this.row == row
    {
      this.row := row;
    }

    /** `get_settings`: `client` is false when there is no spreadsheet client. */
    function GetSettings(client: bool): (s: Settings)
      reads this
      ensures ValidTime(s.start) && ValidTime(s.end)
      ensures !client || row.None? ==> s == DEFAULT_SETTINGS
    {
      if !client then DEFAULT_SETTINGS
      else match row
        case None => DEFAULT_SETTINGS
        case Some(r) => DecodeRow(r)
    }

    /** `save_settings`: one write of the whole row A2:C2. */
    method SaveSettings(client: bool, mode: string, start: Time, end: Time) returns (fb: SaveFeedback)
      requires ValidTime(start) && ValidTime(end)
      modifies this
      ensures !client ==> fb == NoClient && row == old(row)
      ensures client && old(row).None? ==> fb == SaveFailed && row == old(row)
      ensures client && old(row).Some? ==> fb == Saved && row == Some(EncodeRow(mode, start, end))
      ensures fb == Saved ==> GetSettings(true) == Settings(Some(mode), AtMinute(start), AtMinute(end))
    {
      if !client {
        return NoClient;
      }
      if row.None? {
        return SaveFailed;
      }
      row := Some(EncodeRow(mode, start, end));
      DecodeEncode(mode, start, end);
      fb := Saved;
    }
  }
}
