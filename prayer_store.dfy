/**
 * The prayer-times store of src/store/prayer-store.ts: the loaded record with its
 * `loading` and `error` flags, and the time-of-day evaluator that picks the current
 * and the next prayer and formats the countdown. "Now" is a parameter: the minute
 * of the day, `getHours() * 60 + getMinutes()`.
 */
module PrayerStore {
  import opened Wrappers
  import opened Text
  import opened PrayerNames
  import Prayers
  import opened PrayerOrder
  import opened Countdown

  /** The record the store holds (the `PrayerTimes` interface). */
  datatype PrayerTimes = PrayerTimes(
    id: Option<string>,
    date: string,
    fajr: string,
    dhuhr: string,
    asr: string,
    maghrib: string,
    isha: string,
    masjidName: string,
    updatedAt: int)

  function TimeOf(t: PrayerTimes, p: Prayer): string {
    match p
    case Fajr => t.fajr
    case Dhuhr => t.dhuhr
    case Asr => t.asr
    case Maghrib => t.maghrib
    case Isha => t.isha
  }

  /** Every time reads as two numbers (the evaluator's precondition: no NaN). */
  predicate TimesNumeric(t: PrayerTimes) {
    forall p :: IsNumericTime(TimeOf(t, p))
  }

  /** Every time is a wall-clock "H:M" with hours 0..23 and minutes 0..59. */
  predicate TimesValid(t: PrayerTimes) {
    forall p :: IsClockTime(TimeOf(t, p))
  }

  lemma ValidTimesAreNumeric(t: PrayerTimes)
    requires TimesValid(t)
    ensures TimesNumeric(t)
  {
  }

  /** `timeToMinutes`: minutes since midnight of "hours:minutes". */
  function TimeToMinutes(timeStr: string): nat
    requires IsNumericTime(timeStr)
  {
    HoursOf(timeStr) * 60 + MinutesOf(timeStr)
  }

  /** The minutes split back into the hour and minute read; a valid time of day lands in 0..1439. */
  lemma TimeToMinutesSpec(timeStr: string)
    requires IsNumericTime(timeStr)
    ensures MinutesOf(timeStr) < 60 ==>
      TimeToMinutes(timeStr) / 60 == HoursOf(timeStr) && TimeToMinutes(timeStr) % 60 == MinutesOf(timeStr)
    ensures IsClockTime(timeStr) ==> TimeToMinutes(timeStr) < 1440
  {
  }

  /** "HH:MM" is 60 * HH + MM minutes after midnight. */
  lemma TimeToMinutesOfClock(h: nat, m: nat)
    requires h <= 23 && m <= 59
    ensures TimeToMinutes(Clock(h, m)) == 60 * h + m
  {
  }

  function SlotOf(t: PrayerTimes, p: Prayer): (s: Slot)
    requires TimesNumeric(t)
  {
    Slot(p, TimeOf(t, p), TimeToMinutes(TimeOf(t, p)))
  }

  /** The five prayers in canonical order (`PRAYER_NAMES.map(...)`). */
  function Slots(t: PrayerTimes): (s: seq<Slot>)
    requires TimesNumeric(t)
    ensures CanonicalSlots(s)
    ensures forall i :: 0 <= i < 5 ==> s[i] == SlotOf(t, Canonical[i])
  {
    var s := seq(5, i requires 0 <= i < 5 => SlotOf(t, Canonical[i]));
    assert forall i :: 0 <= i < 5 ==> Rank(s[i].prayer) == i by {
      assert Rank(Fajr) == 0 && Rank(Dhuhr) == 1 && Rank(Asr) == 2 && Rank(Maghrib) == 3 && Rank(Isha) == 4;
    }
    s
  }

  /** The prayers of a record, sorted by time. */
  function SortedSlots(t: PrayerTimes): (s: seq<Slot>)
    requires TimesNumeric(t)
    ensures |s| == 5
  {
    var slots := Slots(t);
    assert RanksIncreasing(slots);
    SortSpec(slots);
    assert |SortByMinutes(slots)| == |multiset(SortByMinutes(slots))| == 5;
    SortByMinutes(slots)
  }

  /** Every sorted slot carries its own prayer's stored time and minutes. */
  lemma SortedSlotIsOwn(t: PrayerTimes, k: int)
    requires TimesNumeric(t) && 0 <= k < 5
    ensures SortedSlots(t)[k] == SlotOf(t, SortedSlots(t)[k].prayer)
  {
    var slots := Slots(t);
    assert RanksIncreasing(slots);
    SortSpec(slots);
    PermutedSlotIsOwn(slots, SortedSlots(t), k);
  }

  /** What `getCurrentPrayer` returns for a loaded record at minute `now`. */
  function Evaluate(t: PrayerTimes, now: int): CurrentPrayer
    requires TimesNumeric(t)
  {
    Pick(SortedSlots(t), now)
  }

  /** The current and the next prayer are two of the record's five, each named and timed as stored. */
  lemma EvaluateNamesStoredPrayers(t: PrayerTimes, now: int)
    requires TimesNumeric(t)
    ensures exists p :: Evaluate(t, now).next == PrayerRef(DisplayName(p), TimeOf(t, p))
    ensures exists p :: Evaluate(t, now).name == DisplayName(p) && Evaluate(t, now).time == TimeOf(t, p)
  {
    var s := SortedSlots(t);
    SortedSlotIsOwn(t, CurrentIndex(s, now));
    SortedSlotIsOwn(t, NextIndex(s, now));
  }

  /** The next prayer's time string reads back as the minutes it was sorted by. */
  lemma NextTimeReadsBack(t: PrayerTimes, now: int)
    requires TimesNumeric(t)
    ensures IsNumericTime(Evaluate(t, now).next.time)
    ensures TimeToMinutes(Evaluate(t, now).next.time) == SortedSlots(t)[NextIndex(SortedSlots(t), now)].minutes
  {
    SortedSlotIsOwn(t, NextIndex(SortedSlots(t), now));
  }

  /** The string `getTimeUntilNext` shows for a loaded record at minute `now`. */
  function TimeUntilNext(t: PrayerTimes, now: int): string
    requires TimesNumeric(t) && 0 <= now < 1440
  {
    var s := SortedSlots(t);
    FormatCountdown(MinutesUntil(s[NextIndex(s, now)].minutes, now))
  }

  /**
   * With valid times the countdown is between one minute and a full day, equals
   * the minutes to the next prayer modulo a day, and is what the string states.
   */
  lemma TimeUntilNextSpec(t: PrayerTimes, now: int)
    requires TimesValid(t) && 0 <= now < 1440
    ensures TimesNumeric(t)
    ensures var s := SortedSlots(t);
      var total := MinutesUntil(s[NextIndex(s, now)].minutes, now);
      && 1 <= total <= 1440
      && total % 1440 == (s[NextIndex(s, now)].minutes - now) % 1440
      && CountdownValue(TimeUntilNext(t, now)) == Some(total)
  {
    ValidTimesAreNumeric(t);
    var s := SortedSlots(t);
    ValidSlotsWithinDay(t, NextIndex(s, now));
    CountdownRoundTrip(MinutesUntil(s[NextIndex(s, now)].minutes, now));
  }

  /** With valid times every sorted slot falls within the day. */
  lemma ValidSlotsWithinDay(t: PrayerTimes, k: int)
    requires TimesValid(t) && 0 <= k < 5
    ensures TimesNumeric(t) && SortedSlots(t)[k].minutes < 1440
  {
    ValidTimesAreNumeric(t);
    var p := SortedSlots(t)[k].prayer;
    SortedSlotIsOwn(t, k);
    assert IsClockTime(TimeOf(t, p));
    TimeToMinutesSpec(TimeOf(t, p));
  }

  /** The five slots of a record whose times fall at 05:30, 12:30, 15:45, 18:15 and 19:30. */
  function ExampleSlots(t: PrayerTimes): seq<Slot> {
    [Slot(Fajr, t.fajr, 330), Slot(Dhuhr, t.dhuhr, 750), Slot(Asr, t.asr, 945),
     Slot(Maghrib, t.maghrib, 1095), Slot(Isha, t.isha, 1170)]
  }

  predicate ExampleTimes(t: PrayerTimes) {
    TimesNumeric(t) && Slots(t) == ExampleSlots(t)
  }

  /** Such a record sorts in canonical order. */
  lemma ExampleSorted(t: PrayerTimes)
    requires ExampleTimes(t)
    ensures SortedSlots(t) == ExampleSlots(t)
  {
    var s := ExampleSlots(t);
    assert InOrder(s);
    SortKeepsOrdered(s);
  }

  /** At 14:00 it is Dhuhr, Asr is next, in "1h 45m". */
  lemma AfternoonExample(t: PrayerTimes)
    requires ExampleTimes(t)
    ensures Evaluate(t, 14 * 60) == CurrentPrayer("Dhuhr", t.dhuhr, PrayerRef("Asr", t.asr))
    ensures TimeUntilNext(t, 14 * 60) == "1h 45m"
  {
    ExampleSorted(t);
    var s := SortedSlots(t);
    assert FirstAfter(s, 840) == 2 by {
      assert FirstAfter(s[2..], 840) == 0;
    }
    CountdownExamples();
  }

  /** At 23:50 it is still Isha, and Fajr is next, tomorrow, in "5h 40m". */
  lemma NightExample(t: PrayerTimes)
    requires ExampleTimes(t)
    ensures Evaluate(t, 23 * 60 + 50) == CurrentPrayer("Isha", t.isha, PrayerRef("Fajr", t.fajr))
    ensures TimeUntilNext(t, 23 * 60 + 50) == "5h 40m"
  {
    ExampleSorted(t);
    var s := SortedSlots(t);
    assert FirstAfter(s, 1430) == 5 by {
      assert FirstAfter(s[5..], 1430) == 0;
    }
    CountdownExamples();
  }

  /** What `getItems` handed back, or that it threw. */
  datatype Lookup = Responded(items: seq<Prayers.PrayerRecord>) | Threw

  const NotFoundMessage: string := "No prayer times found for this date"
  const FailedMessage: string := "Failed to load prayer times"
  const DefaultMasjidName: string := "Local Masjid"

  /** The stored record as the store keeps it; a missing or empty masjid name becomes the default. */
  function ToPrayerTimes(rec: Prayers.PrayerRecord): (t: PrayerTimes)
    ensures t.masjidName != ""
    ensures rec.masjidName != "" ==> t.masjidName == rec.masjidName
    ensures rec.masjidName == "" ==> t.masjidName == DefaultMasjidName
    ensures t.id == rec.id && t.date == rec.date && t.updatedAt == rec.updatedAt
    ensures t.fajr == rec.fajr && t.dhuhr == rec.dhuhr && t.asr == rec.asr
    ensures t.maghrib == rec.maghrib && t.isha == rec.isha
  {
    PrayerTimes(rec.id, rec.date, rec.fajr, rec.dhuhr, rec.asr, rec.maghrib, rec.isha,
      if rec.masjidName != "" then rec.masjidName else DefaultMasjidName, rec.updatedAt)
  }

  /**
   * The times and error message `fetchPrayerTimes` settles on: exactly one is
   * present; "not found" and "failed" are different messages.
   */
  function Settle(lookup: Lookup): (out: (Option<PrayerTimes>, Option<string>))
    ensures out.0.Some? != out.1.Some?
    ensures out.0.Some? <==> lookup.Responded? && |lookup.items| > 0
    ensures out.0.Some? ==> out.0.value == ToPrayerTimes(lookup.items[0])
    ensures out.1 == Some(NotFoundMessage) <==> lookup.Responded? && |lookup.items| == 0
    ensures out.1 == Some(FailedMessage) <==> lookup.Threw?
  {
    match lookup
    case Responded(items) =>
      if |items| > 0 then (Some(ToPrayerTimes(items[0])), None)
      else (None, Some(NotFoundMessage))
    case Threw => (None, Some(FailedMessage))
  }

  /**
   * Fetching a non-empty date from the table loads the record stored under that
   * date, or reports "not found"; fetching the empty date asks for no date at all,
   * and loads the first record of the table whatever its date.
   */
  lemma FetchFromTable(es: Prayers.Entries, date: string)
    requires Prayers.DistinctDates(es) && Prayers.KeyedByDate(es)
    ensures var out := Settle(Responded(Prayers.QueryItems(es, Some(date)).items));
      && (date != "" ==> (out.0.Some? <==> Prayers.Get(es, date).Some?))
      && (date != "" && out.0.Some? ==> out.0.value == ToPrayerTimes(Prayers.Get(es, date).value))
      && (date != "" && out.0.Some? ==> out.0.value.date == date)
      && (date == "" && |es| > 0 ==> out.0 == Some(ToPrayerTimes(es[0].1)))
  {
  }

  class Store {
    var currentPrayerTimes: Option<PrayerTimes>
    var loading: bool
    var error: Option<string>

    constructor ()
      ensures currentPrayerTimes == None && !loading && error == None
    {
      currentPrayerTimes := None;
      loading := false;
      error := None;
    }

    /**
     * `fetchPrayerTimes`: raises `loading` and clears `error`, asks for the date, then
     * settles. The lookup of `date` is done by the caller and passed in.
     */
    method FetchPrayerTimes(date: string, lookup: Lookup)
      modifies this
      ensures !loading
      ensures (currentPrayerTimes, error) == Settle(lookup)
      ensures currentPrayerTimes.Some? != error.Some?
    {
      loading, error := true, None;
      match lookup {
        case Responded(items) =>
          if |items| > 0 {
            currentPrayerTimes, loading := Some(ToPrayerTimes(items[0])), false;
          } else {
            currentPrayerTimes, loading, error := None, false, Some(NotFoundMessage);
          }
        case Threw =>
          currentPrayerTimes, loading, error := None, false, Some(FailedMessage);
      }
    }

    /**
     * `getCurrentPrayer`: nothing when no record is loaded; otherwise walks the
     * prayers sorted by time for the first one after `now`.
     */
    method GetCurrentPrayer(now: int) returns (info: Option<CurrentPrayer>)
      requires currentPrayerTimes.Some? ==> TimesNumeric(currentPrayerTimes.value)
      ensures info.None? <==> currentPrayerTimes.None?
      ensures info.Some? ==> info.value == Evaluate(currentPrayerTimes.value, now)
    {
      if currentPrayerTimes.None? {
        return None;
      }
      var prayers := SortedSlots(currentPrayerTimes.value);
      var currentPrayer := prayers[|prayers| - 1];
      var nextPrayer := prayers[0];
      var i := 0;
      while i < |prayers|
        invariant 0 <= i <= |prayers|
        invariant forall j :: 0 <= j < i ==> prayers[j].minutes <= now
        invariant currentPrayer == prayers[|prayers| - 1] && nextPrayer == prayers[0]
      {
        if now < prayers[i].minutes {
          nextPrayer := prayers[i];
          if i > 0 {
            currentPrayer := prayers[i - 1];
          }
          break;
        }
        i := i + 1;
      }
      assert i == FirstAfter(prayers, now);
      info := Some(CurrentPrayer(DisplayName(currentPrayer.prayer), currentPrayer.time,
        PrayerRef(DisplayName(nextPrayer.prayer), nextPrayer.time)));
    }

    /** `getTimeUntilNext`: the countdown to the next prayer, or "" when nothing is loaded. */
    method GetTimeUntilNext(now: int) returns (r: string)
      requires currentPrayerTimes.Some? ==> TimesNumeric(currentPrayerTimes.value)
      requires 0 <= now < 1440
      ensures currentPrayerTimes.None? ==> r == ""
      ensures currentPrayerTimes.Some? ==> r == TimeUntilNext(currentPrayerTimes.value, now)
    {
      var currentPrayerInfo := GetCurrentPrayer(now);
      if currentPrayerInfo.None? {
        return "";
      }
      ghost var sorted := SortedSlots(currentPrayerTimes.value);
      ghost var next := sorted[NextIndex(sorted, now)].minutes;
      NextTimeReadsBack(currentPrayerTimes.value, now);
      var nextPrayerMinutes := TimeToMinutes(currentPrayerInfo.value.next.time);
      assert nextPrayerMinutes == next;
      var minutesUntil := nextPrayerMinutes - now;
      if minutesUntil <= 0 {
        minutesUntil := minutesUntil + 24 * 60;
      }
      assert minutesUntil == MinutesUntil(next, now);
      var hours := minutesUntil / 60;
      var minutes := minutesUntil % 60;
      if hours > 0 {
        r := Amount(hours, 'h') + " " + Amount(minutes, 'm');
      } else {
        r := Amount(minutes, 'm');
      }
      assert r == FormatCountdown(minutesUntil);
    }
  }
}
