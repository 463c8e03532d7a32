/**
 * The countdown `getTimeUntilNext` in src/store/prayer-store.ts shows: the minutes
 * to the next prayer, wrapping to tomorrow, and their "{h}h {m}m" text.
 */
module Countdown {
  import opened Wrappers
  import opened Text

  /** The countdown in minutes: `next - now`, plus a day when that is not positive. */
  function MinutesUntil(nextMinutes: int, now: int): (r: int)
    ensures 0 <= nextMinutes && 0 <= now < 1440 ==> 1 <= r
    ensures 0 <= nextMinutes < 1440 && 0 <= now < 1440 ==>
      r <= 1440 && r % 1440 == (nextMinutes - now) % 1440
  {
    var minutesUntil := nextMinutes - now;
    if minutesUntil <= 0 then minutesUntil + 24 * 60 else minutesUntil
  }

  /** A number followed by its unit letter, as in `${hours}h`: the number is not padded. */
  function Amount(n: nat, unit: char): string {
    NatToString(n) + [unit]
  }

  /** "{h}h {m}m", or "{m}m" under an hour. */
  function FormatCountdown(total: nat): string {
    var hours := total / 60;
    var minutes := total % 60;
    if hours > 0 then Amount(hours, 'h') + " " + Amount(minutes, 'm')
    else Amount(minutes, 'm')
  }

  /** `text` is digits followed by the unit letter `unit`. */
  predicate IsAmount(text: string, unit: char) {
    |text| >= 1 && text[|text| - 1] == unit && AllDigits(text[..|text| - 1])
  }

  function AmountOf(text: string, unit: char): nat
    requires IsAmount(text, unit)
  {
    ParseDecimal(text[..|text| - 1])
  }

  /** Reads a countdown string back into minutes: the inverse of `FormatCountdown`. */
  function CountdownValue(text: string): Option<nat> {
    var parts := Split(text, ' ');
    if |parts| == 1 && IsAmount(parts[0], 'm') then
      Some(AmountOf(parts[0], 'm'))
    else if |parts| == 2 && IsAmount(parts[0], 'h') && IsAmount(parts[1], 'm') then
      Some(60 * AmountOf(parts[0], 'h') + AmountOf(parts[1], 'm'))
    else None
  }

  /** An amount contains no space and reads back as its number. */
  lemma AmountFields(n: nat, unit: char)
    requires unit != ' ' && !IsDigit(unit)
    ensures ' ' !in Amount(n, unit)
    ensures IsAmount(Amount(n, unit), unit) && AmountOf(Amount(n, unit), unit) == n
  {
    var text := Amount(n, unit);
    ParseNatToString(n);
    DigitsHaveNoSeparator(NatToString(n), ' ');
    assert text[..|text| - 1] == NatToString(n);
    assert forall k :: 0 <= k < |text| ==> text[k] != ' ';
  }

  /** Under an hour the countdown is a single "{m}m" field. */
  lemma CountdownMinutesOnly(total: nat)
    requires total < 60
    ensures FormatCountdown(total) == Amount(total, 'm')
    ensures CountdownValue(FormatCountdown(total)) == Some(total)
    ensures ' ' !in FormatCountdown(total)
  {
    AmountFields(total, 'm');
  }

  /** Two amounts separated by a space read back as hours and minutes. */
  lemma TwoFieldValue(hText: string, mText: string, h: nat, m: nat)
    requires IsAmount(hText, 'h') && AmountOf(hText, 'h') == h
    requires IsAmount(mText, 'm') && AmountOf(mText, 'm') == m
    requires Split(hText + " " + mText, ' ') == [hText, mText]
    ensures CountdownValue(hText + " " + mText) == Some(60 * h + m)
  {
  }

  /** "{h}h {m}m" splits at its one space. */
  lemma AmountsSplit(h: nat, m: nat)
    ensures Split(Amount(h, 'h') + " " + Amount(m, 'm'), ' ') == [Amount(h, 'h'), Amount(m, 'm')]
  {
    AmountFields(h, 'h');
    AmountFields(m, 'm');
    SplitAtFirst(Amount(h, 'h'), ' ', Amount(m, 'm'));
  }

  /** "{h}h {m}m" reads back as `60 * h + m` minutes. */
  lemma HoursAndMinutesValue(h: nat, m: nat)
    ensures CountdownValue(Amount(h, 'h') + " " + Amount(m, 'm')) == Some(60 * h + m)
  {
    AmountFields(h, 'h');
    AmountFields(m, 'm');
    AmountsSplit(h, m);
    TwoFieldValue(Amount(h, 'h'), Amount(m, 'm'), h, m);
  }

  /** From an hour on the countdown is "{h}h" and "{m}m" separated by one space. */
  lemma CountdownWithHours(total: nat)
    requires total >= 60
    ensures Split(FormatCountdown(total), ' ') == [Amount(total / 60, 'h'), Amount(total % 60, 'm')]
    ensures CountdownValue(FormatCountdown(total)) == Some(total)
    ensures ' ' in FormatCountdown(total)
  {
    var h, m := total / 60, total % 60;
    assert h > 0;
    var text := Amount(h, 'h') + " " + Amount(m, 'm');
    assert FormatCountdown(total) == text;
    assert ' ' in text by {
      assert text[|Amount(h, 'h')|] == ' ';
    }
    HoursAndMinutesValue(h, m);
    AmountsSplit(h, m);
    assert 60 * h + m == total;
  }

  /**
   * The countdown string states the countdown exactly, with an hour part only when
   * it is at least an hour: "{m}m" under an hour, otherwise "{h}h" and "{m}m" with
   * m below 60, separated by one space. Each amount is `String(n)` followed by its
   * unit, so it has no leading zero.
   */
  lemma CountdownRoundTrip(total: nat)
    ensures total < 60 ==> FormatCountdown(total) == Amount(total, 'm')
    ensures total >= 60 ==> Split(FormatCountdown(total), ' ') == [Amount(total / 60, 'h'), Amount(total % 60, 'm')]
    ensures total >= 60 ==> total % 60 < 60 && 1 <= total / 60
    ensures CountdownValue(FormatCountdown(total)) == Some(total)
    ensures ' ' in FormatCountdown(total) <==> total >= 60
  {
    if total < 60 {
      CountdownMinutesOnly(total);
    } else {
      CountdownWithHours(total);
    }
  }

  /** 105 minutes show as "1h 45m", 340 as "5h 40m", 45 as "45m". */
  lemma CountdownExamples()
    ensures FormatCountdown(105) == "1h 45m"
    ensures FormatCountdown(340) == "5h 40m"
    ensures FormatCountdown(45) == "45m"
  {
  }
}
