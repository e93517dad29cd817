/** The capture timestamp of an image: the Exif DateTime text layout
    `yyyy:MM:dd HH:mm:ss` that is parsed, and the `yyyyMMdd` day segment
    of a group key that is produced from it. */
module ExifDate {
  import opened Wrappers
  import opened Digits

  datatype DateTime = DateTime(year: nat, month: nat, day: nat, hour: nat, minute: nat, second: nat)

  predicate IsLeapYear(y: nat) {
    y % 4 == 0 && (y % 100 != 0 || y % 400 == 0)
  }

  function DaysInMonth(y: nat, m: nat): (n: nat)
    requires 1 <= m <= 12
    ensures 28 <= n <= 31
  {
    if m == 2 then (if IsLeapYear(y) then 29 else 28)
    else if m == 4 || m == 6 || m == 9 || m == 11 then 30
    else 31
  }

  /** A calendar instant with four-digit year and every field in range. */
  predicate ValidDate(d: DateTime) {
    && 1 <= d.year <= 9999
    && 1 <= d.month <= 12
    && 1 <= d.day <= DaysInMonth(d.year, d.month)
    && d.hour < 24 && d.minute < 60 && d.second < 60
  }

  /** The timestamps a parse can produce. */
  type Date = d: DateTime | ValidDate(d) witness DateTime(1970, 1, 1, 0, 0, 0)

  /** The canonical `yyyy:MM:dd HH:mm:ss` text of a timestamp. */
  function FormatDateTime(d: DateTime): (s: string)
    ensures |s| == 19
  {
    Pad(d.year, 4) + ":" + Pad(d.month, 2) + ":" + Pad(d.day, 2) + " "
      + Pad(d.hour, 2) + ":" + Pad(d.minute, 2) + ":" + Pad(d.second, 2)
  }

  /** True when the first 19 characters of `s` have the shape of the layout
      and the seconds field ends there: the last field of the pattern has no
      numeric field after it, so `SimpleDateFormat` would read every further
      digit into it. */
  predicate HasLayout(s: string) {
    && |s| >= 19
    && AllDigits(s[0..4]) && s[4] == ':'
    && AllDigits(s[5..7]) && s[7] == ':'
    && AllDigits(s[8..10]) && s[10] == ' '
    && AllDigits(s[11..13]) && s[13] == ':'
    && AllDigits(s[14..16]) && s[16] == ':'
    && AllDigits(s[17..19])
    && (|s| == 19 || !IsDigit(s[19]))
  }

  /** Parses the Exif DateTime layout. A suffix after the 19th character
      that does not start with a digit is ignored, as `DateFormat.parse(String)`
      does; a shape mismatch (a wider seconds field included) or an
      out-of-range field yields `None`, the parse exception. */
  function ParseDateTime(s: string): (r: Option<Date>)
    ensures r.Some? ==> |s| >= 19 && FormatDateTime(r.value) == s[..19]
    ensures r.Some? ==> |s| == 19 || !IsDigit(s[19])
  {
    if !HasLayout(s) then None
    else
      var d := DateTime(ToNat(s[0..4]), ToNat(s[5..7]), ToNat(s[8..10]),
                        ToNat(s[11..13]), ToNat(s[14..16]), ToNat(s[17..19]));
      if !ValidDate(d) then None
      else
        PadToNat(s[0..4]); PadToNat(s[5..7]); PadToNat(s[8..10]);
        PadToNat(s[11..13]); PadToNat(s[14..16]); PadToNat(s[17..19]);
        assert FormatDateTime(d) == s[..19];
        Some(d)
  }

  /** The `yyyyMMdd` day segment of a group key: eight digits that read
      back as the year, month and day. */
  function FormatDay(d: Date): (s: string)
    ensures |s| == 8 && AllDigits(s)
    ensures ToNat(s[0..4]) == d.year && ToNat(s[4..6]) == d.month && ToNat(s[6..8]) == d.day
  {
    var s := Pad(d.year, 4) + Pad(d.month, 2) + Pad(d.day, 2);
    assert s[0..4] == Pad(d.year, 4) && s[4..6] == Pad(d.month, 2) && s[6..8] == Pad(d.day, 2);
    ToNatPad(d.year, 4); ToNatPad(d.month, 2); ToNatPad(d.day, 2);
    s
  }

  /** Every valid timestamp is parsed back from its canonical text followed
      by any suffix that does not start with a digit. */
  lemma ParseFormat(d: Date, rest: string)
    requires rest == [] || !IsDigit(rest[0])
    ensures ParseDateTime(FormatDateTime(d) + rest) == Some(d)
  {
    var s := FormatDateTime(d) + rest;
    assert |s| == 19 || s[19] == rest[0];
    assert s[0..4] == Pad(d.year, 4);
    assert s[5..7] == Pad(d.month, 2);
    assert s[8..10] == Pad(d.day, 2);
    assert s[11..13] == Pad(d.hour, 2);
    assert s[14..16] == Pad(d.minute, 2);
    assert s[17..19] == Pad(d.second, 2);
    ToNatPad(d.year, 4); ToNatPad(d.month, 2); ToNatPad(d.day, 2);
    ToNatPad(d.hour, 2); ToNatPad(d.minute, 2); ToNatPad(d.second, 2);
  }

  /** The day segment of a parsed timestamp is its date text with the
      colons removed. */
  lemma DaySegmentFromText(s: string)
    requires ParseDateTime(s).Some?
    ensures FormatDay(ParseDateTime(s).value) == s[0..4] + s[5..7] + s[8..10]
  {
    var d := ParseDateTime(s).value;
    var t := FormatDateTime(d);
    assert t[0..4] == Pad(d.year, 4);
    assert t[5..7] == Pad(d.month, 2);
    assert t[8..10] == Pad(d.day, 2);
  }

  /** Two valid timestamps share a day segment exactly when they fall on
      the same calendar day. */
  lemma FormatDayInjective(d1: Date, d2: Date)
    ensures FormatDay(d1) == FormatDay(d2)
            <==> d1.year == d2.year && d1.month == d2.month && d1.day == d2.day
  {
    var s1, s2 := FormatDay(d1), FormatDay(d2);
    if s1 == s2 {
      assert s1[0..4] == Pad(d1.year, 4) && s2[0..4] == Pad(d2.year, 4);
      assert s1[4..6] == Pad(d1.month, 2) && s2[4..6] == Pad(d2.month, 2);
      assert s1[6..8] == Pad(d1.day, 2) && s2[6..8] == Pad(d2.day, 2);
      PadInjective(d1.year, d2.year, 4);
      PadInjective(d1.month, d2.month, 2);
      PadInjective(d1.day, d2.day, 2);
    }
  }

  /** A seconds field wider than two digits is not cut short: the text is
      rejected instead of being read as second 59 of the stated day. */
  lemma WideSecondsRejected()
    ensures ParseDateTime("2020:01:02 23:59:599999") == None
  {
    assert "2020:01:02 23:59:599999"[19] == '9';
  }
}
