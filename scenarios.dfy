/**
 * The decision on small concrete sheets: a first check-in by ID, a second
 * attempt by name from another device, and a second person tried from a
 * device that already checked someone in.
 */
module Scenarios {
  import opened Wrappers
  import opened PyText
  import opened Roster
  import opened Decision

  const HEADER: seq<string> := [EMPLOYEE_ID, NAME, TABLE_NO, CHECK_IN_TIME, CHECK_OUT_TIME, DEVICE_FINGERPRINT]
  const LAYOUT := Layout(6, 0, 1, 2, 3, 4, Some(5))
  const STAMP := "2025-05-01 09:30:00"

  /** John Doe, employee M4095 at table A1, not checked in yet and with no device bound. */
  const JOHN: Row := [Some("M4095"), Some("John Doe"), Some("A1"), None, None, None]
  /** John Doe's row as `get_data` reads it: the empty DeviceFingerprint cell becomes "nan". */
  const JOHN_READ: Row := [Some("M4095"), Some("John Doe"), Some("A1"), None, None, Some("nan")]
  /** John Doe's row once checked in from device "abc". */
  const JOHN_IN: Row := [Some("M4095"), Some("John Doe"), Some("A1"), Some(STAMP), None, Some("abc")]
  /** Jane Roe, employee M4096, not checked in yet, as `get_data` reads her row. */
  const JANE_READ: Row := [Some("M4096"), Some("Jane Roe"), Some("B2"), None, None, Some("nan")]

  /** The six columns in this order are where `get_loc` finds them. */
  lemma HeaderLayout()
    ensures HasSchema(HEADER) && LayoutOf(HEADER) == LAYOUT
  {
    assert HEADER[0] == EMPLOYEE_ID && HEADER[1] == NAME && HEADER[2] == TABLE_NO;
    assert HEADER[3] == CHECK_IN_TIME && HEADER[4] == CHECK_OUT_TIME && HEADER[5] == DEVICE_FINGERPRINT;
  }

  /** Reading John Doe's sheet row gives the frame the examples below start from. */
  lemma JohnRead()
    ensures ReadFrom(Frame(LAYOUT, [0], [JOHN_READ]), [JOHN])
  {
    StripKeepsTrimmed("M4095");
    StripNan();
  }

  /**
   * Checking in "M4095" from device "abc" succeeds with John Doe's name and
   * table A1, and writes the timestamp into D2 and the device into F2.
   */
  lemma FirstCheckIn()
    ensures var d := Decide(Frame(LAYOUT, [0], [JOHN_READ]), "M4095", true, STAMP, "abc");
      && d == (CheckedIn(Some("John Doe"), Some("A1")), [CellWrite(2, 4, STAMP), CellWrite(2, 6, "abc")])
      && ApplyWrites([JOHN], d.1) == [JOHN_IN]
  {
    var f := Frame(LAYOUT, [0], [JOHN_READ]);
    assert IdMatches(f, 0, "M4095") by {
      assert Lower("M4095") == "m4095";
    }
    LookupPrefersFirstId(f, "M4095", 0);
    assert !FingerprintInUse(f, "abc") by {
      assert "nan" != "abc";
    }
    CheckInGuards(f, "M4095", STAMP, "abc");
    CheckInOnFrame(f, "M4095", STAMP, "abc");
    assert CheckInWrites(LAYOUT, 0, STAMP, "abc") == [CellWrite(2, 4, STAMP), CellWrite(2, 6, "abc")];
    WriteTwoCells([JOHN], 0, 3, STAMP, 5, "abc");
    assert JOHN[3 := Some(STAMP)][5 := Some("abc")] == JOHN_IN;
  }

  /** The same person again, by name in lower case from device "xyz": already checked in, nothing written. */
  lemma SecondAttemptByName()
    ensures Decide(Frame(LAYOUT, [0], [JOHN_IN]), "john doe", true, STAMP, "xyz") == (AlreadyCheckedIn(Some("John Doe")), [])
  {
    JohnByName();
    assert !IsBlank(Some(STAMP)) by {
      assert !IsSpace(STAMP[0]);
    }
  }

  /** "john doe" matches no ID and exactly one name, John Doe's. */
  lemma JohnByName()
    ensures Lookup(Frame(LAYOUT, [0], [JOHN_IN]), "john doe") == Unique(0)
  {
    var f := Frame(LAYOUT, [0], [JOHN_IN]);
    assert !IdMatches(f, 0, "john doe") by {
      assert |Lower("M4095")| != |Lower("john doe")|;
    }
    assert NameMatches(f, 0, "john doe") by {
      LowerJohnDoe();
    }
    LookupByName(f, "john doe");
  }

  /** Jane Roe, tried from the device that checked John Doe in: the device is refused, nothing written. */
  lemma SameDeviceForAnother()
    ensures Decide(Frame(LAYOUT, [0, 1], [JOHN_IN, JANE_READ]), "M4096", true, STAMP, "abc") == (DeviceAlreadyUsed, [])
  {
    var f := Frame(LAYOUT, [0, 1], [JOHN_IN, JANE_READ]);
    assert IdMatches(f, 1, "M4096") by {
      assert Lower("M4096") == "m4096";
    }
    assert !IdMatches(f, 0, "M4096") by {
      assert Lower("M4095")[4] != Lower("M4096")[4];
    }
    LookupPrefersFirstId(f, "M4096", 1);
    assert FingerprintInUse(f, "abc") by {
      assert f.rows[0][5] == Some("abc");
    }
  }

  /** Lowering only touches the capitals. */
  lemma LowerJohnDoe()
    ensures Lower("John Doe") == "john doe" && Lower("john doe") == "john doe"
  {
    var upper, lower := Lower("John Doe"), Lower("john doe");
    assert upper[0] == 'j' && upper[4] == ' ' && upper[5] == 'd';
    assert lower[0] == 'j' && lower[4] == ' ' && lower[5] == 'd';
    assert upper == "john doe";
    assert lower == "john doe";
  }
}
