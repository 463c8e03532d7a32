/** The 24-hour / 12-hour time-string conversions of src/lib/utils.ts. */
module Utils {
  import opened Text

  /** The hour as shown on a 12-hour dial: the same hour modulo 12, never 0. */
  function Hour12(h: nat): (r: nat)
    ensures r % 12 == h % 12
    ensures h <= 23 ==> 1 <= r <= 12
  {
    if h == 0 then 12 else if h > 12 then h - 12 else h
  }

  /** `formatTime12Hour`: "HH:MM" (24-hour) to "h:mm AM|PM". */
  function FormatTime12Hour(time24: string): string
    requires IsNumericTime(time24)
  {
    var hours := HoursOf(time24);
    var minutes := MinutesOf(time24);
    var period := if hours >= 12 then "PM" else "AM";
    NatToString(Hour12(hours)) + ":" + Pad2(minutes) + " " + period
  }

  /**
   * The 12-hour string is a time part and a period separated by one space; the time
   * part reads back as the 12-hour hour (unpadded) and the same minutes (padded to
   * two digits), and the period is "PM" exactly when the hour is 12 or later.
   */
  lemma FormatTime12HourFields(time24: string)
    requires IsNumericTime(time24)
    ensures var parts := Split(FormatTime12Hour(time24), ' ');
      && |parts| == 2
      && IsNumericTime(parts[0])
      && HoursOf(parts[0]) == Hour12(HoursOf(time24))
      && MinutesOf(parts[0]) == MinutesOf(time24)
      && Split(parts[0], ':') == [NatToString(Hour12(HoursOf(time24))), Pad2(MinutesOf(time24))]
      && (parts[1] == "PM" <==> HoursOf(time24) >= 12)
      && (parts[1] == "AM" <==> HoursOf(time24) < 12)
  {
    var hours, minutes := HoursOf(time24), MinutesOf(time24);
    var timePart := NatToString(Hour12(hours)) + ":" + Pad2(minutes);
    var period := if hours >= 12 then "PM" else "AM";
    var parts := Split(FormatTime12Hour(time24), ' ');
    assert parts == [timePart, period] by {
      assert ' ' !in timePart by { TimePartFields(Hour12(hours), minutes); }
      assert FormatTime12Hour(time24) == timePart + " " + period;
      SplitAtFirst(timePart, ' ', period);
      assert Split(period, ' ') == [period];
    }
    TimePartFields(Hour12(hours), minutes);
  }

  /** "h:mm" with an unpadded hour has no space and reads back as that hour and minute. */
  lemma TimePartFields(h: nat, m: nat)
    ensures var timePart := NatToString(h) + ":" + Pad2(m);
      && ' ' !in timePart
      && Split(timePart, ':') == [NatToString(h), Pad2(m)]
      && IsNumericTime(timePart) && HoursOf(timePart) == h && MinutesOf(timePart) == m
  {
    var hourText, minuteText := NatToString(h), Pad2(m);
    DigitsHaveNoSeparator(hourText, ' ');
    DigitsHaveNoSeparator(minuteText, ' ');
    DigitsHaveNoSeparator(hourText, ':');
    DigitsHaveNoSeparator(minuteText, ':');
    SplitAtFirst(hourText, ':', minuteText);
    assert Split(minuteText, ':') == [minuteText];
    ParseNatToString(h);
    ParsePad2(m);
  }

  /** The time part of a 12-hour string: what precedes its first space. */
  predicate IsTime12(time12: string) {
    IsNumericTime(Split(time12, ' ')[0])
  }

  /** The 24-hour hour for a 12-hour hour and period, as `formatTime24Hour` picks it. */
  function Hour24(hours: nat, period: string): (r: nat)
    ensures period == "AM" && hours <= 12 ==> r == hours % 12
    ensures period == "PM" && hours <= 12 ==> r == hours % 12 + 12
    ensures period != "AM" && period != "PM" ==> r == hours
  {
    if period == "PM" && hours != 12 then hours + 12
    else if period == "AM" && hours == 12 then 0
    else hours
  }

  /**
   * `formatTime24Hour`: "h:mm AM|PM" to "HH:MM". A missing period (no space in the
   * input) is neither "AM" nor "PM" and leaves the hour as it is. The result reads
   * back as the converted hour and the same minutes, and is the zero-padded
   * five-character "HH:MM" whenever both fit in two digits.
   */
  function FormatTime24Hour(time12: string): (r: string)
    requires IsTime12(time12)
    ensures var parts := Split(time12, ' ');
      var period := if |parts| >= 2 then parts[1] else "";
      && IsNumericTime(r)
      && HoursOf(r) == Hour24(HoursOf(parts[0]), period)
      && MinutesOf(r) == MinutesOf(parts[0])
      && (HoursOf(r) < 100 && MinutesOf(r) < 100 ==> |r| == 5 && r[2] == ':')
      && Split(r, ':') == [Pad2(Hour24(HoursOf(parts[0]), period)), Pad2(MinutesOf(parts[0]))]
  {
    var parts := Split(time12, ' ');
    var period := if |parts| >= 2 then parts[1] else "";
    Clock(Hour24(HoursOf(parts[0]), period), MinutesOf(parts[0]))
  }

  /** Converting a valid "HH:MM" to 12-hour form and back gives the original string. */
  lemma RoundTrip(h: nat, m: nat)
    requires h <= 23 && m <= 59
    ensures IsTime12(FormatTime12Hour(Clock(h, m)))
    ensures FormatTime24Hour(FormatTime12Hour(Clock(h, m))) == Clock(h, m)
  {
    FormatTime12HourFields(Clock(h, m));
  }
}
