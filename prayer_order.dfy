/**
 * The order `getCurrentPrayer` in src/store/prayer-store.ts works in: the five
 * prayers as (prayer, time, minutes) slots, the stable sort by minutes, and the
 * choice of the current and the next prayer for a minute of the day.
 */
module PrayerOrder {
  import opened PrayerNames

  /** One prayer as the evaluator sees it: which one, its time string and its minutes. */
  datatype Slot = Slot(prayer: Prayer, time: string, minutes: nat)

  /** Five slots, one per prayer, in canonical order. */
  predicate CanonicalSlots(s: seq<Slot>) {
    |s| == 5 && forall i :: 0 <= i < 5 ==> Rank(s[i].prayer) == i
  }

  /**
   * The order the stable sort leaves the slots in: by minutes, and among equal
   * minutes by canonical position (the input order, which a stable sort keeps).
   */
  predicate Before(a: Slot, b: Slot) {
    a.minutes < b.minutes || (a.minutes == b.minutes && Rank(a.prayer) < Rank(b.prayer))
  }

  predicate InOrder(s: seq<Slot>) {
    forall i, j :: 0 <= i < j < |s| ==> Before(s[i], s[j])
  }

  predicate RanksIncreasing(s: seq<Slot>) {
    forall i, j :: 0 <= i < j < |s| ==> Rank(s[i].prayer) < Rank(s[j].prayer)
  }

  /** `h` may stand in front of `rest`. */
  predicate Precedes(h: Slot, rest: seq<Slot>) {
    forall k :: 0 <= k < |rest| ==> Before(h, rest[k])
  }

  /** `x` comes before every slot of `s` in canonical order. */
  predicate RankBelow(x: Slot, s: seq<Slot>) {
    forall k :: 0 <= k < |s| ==> Rank(x.prayer) < Rank(s[k].prayer)
  }

  /** Insert `x` in front of the first slot that is not earlier than it. */
  function Insert(x: Slot, s: seq<Slot>): seq<Slot> {
    if s == [] || x.minutes <= s[0].minutes then [x] + s
    else [s[0]] + Insert(x, s[1..])
  }

  /** The stable sort by minutes that `Array.prototype.sort` performs on the five prayers. */
  function SortByMinutes(s: seq<Slot>): seq<Slot> {
    if s == [] then [] else Insert(s[0], SortByMinutes(s[1..]))
  }

  lemma Cons(h: Slot, rest: seq<Slot>)
    requires InOrder(rest) && Precedes(h, rest)
    ensures InOrder([h] + rest)
  {
    var r := [h] + rest;
    assert forall k :: 1 <= k < |r| ==> r[k] == rest[k - 1];
  }

  lemma {:induction false} InsertPermutes(x: Slot, s: seq<Slot>)
    ensures multiset(Insert(x, s)) == multiset(s) + multiset{x}
  {
    if s != [] && x.minutes > s[0].minutes {
      assert s == [s[0]] + s[1..];
      InsertPermutes(x, s[1..]);
    }
  }

  lemma {:induction false} InsertInOrder(x: Slot, s: seq<Slot>)
    requires InOrder(s) && RankBelow(x, s)
    ensures InOrder(Insert(x, s))
  {
    if s == [] || x.minutes <= s[0].minutes {
      assert Precedes(x, s);
      Cons(x, s);
    } else {
      var tail := s[1..];
      InsertInOrder(x, tail);
      InsertPermutes(x, tail);
      var rest := Insert(x, tail);
      forall k | 0 <= k < |rest|
        ensures Before(s[0], rest[k])
      {
        assert rest[k] in multiset(rest);
        if rest[k] != x {
          assert rest[k] in multiset(tail);
          var j :| 0 <= j < |tail| && tail[j] == rest[k];
          assert s[j + 1] == rest[k];
        }
      }
      Cons(s[0], rest);
    }
  }

  /** The first of slots in canonical order ranks below every slot of a permutation of the others. */
  lemma HeadRankBelow(s: seq<Slot>, rest: seq<Slot>)
    requires RanksIncreasing(s) && s != []
    requires multiset(rest) == multiset(s[1..])
    ensures RankBelow(s[0], rest)
  {
    forall k | 0 <= k < |rest|
      ensures Rank(s[0].prayer) < Rank(rest[k].prayer)
    {
      assert rest[k] in multiset(s[1..]);
      var j :| 0 <= j < |s[1..]| && s[1..][j] == rest[k];
      assert s[j + 1] == rest[k];
    }
  }

  /**
   * Sorting slots given in canonical order yields a permutation of them that is
   * ascending in minutes with ties kept in input order.
   */
  lemma {:induction false} SortSpec(s: seq<Slot>)
    requires RanksIncreasing(s)
    ensures multiset(SortByMinutes(s)) == multiset(s)
    ensures InOrder(SortByMinutes(s))
  {
    if s != [] {
      var tail := s[1..];
      assert s == [s[0]] + tail;
      SortSpec(tail);
      var rest := SortByMinutes(tail);
      HeadRankBelow(s, rest);
      InsertPermutes(s[0], rest);
      InsertInOrder(s[0], rest);
    }
  }

  /** Slots already in order are left as they are. */
  lemma {:induction false} SortKeepsOrdered(s: seq<Slot>)
    requires InOrder(s)
    ensures SortByMinutes(s) == s
  {
    if s != [] {
      SortKeepsOrdered(s[1..]);
      assert Precedes(s[0], s[1..]);
    }
  }

  /** Slots in order ascend in minutes, keep ties in canonical order, and never repeat. */
  lemma InOrderMeans(s: seq<Slot>)
    requires InOrder(s)
    ensures forall i, j :: 0 <= i < j < |s| ==> s[i].minutes <= s[j].minutes
    ensures forall i, j :: 0 <= i < j < |s| && s[i].minutes == s[j].minutes ==> Rank(s[i].prayer) < Rank(s[j].prayer)
    ensures forall i, j :: 0 <= i < j < |s| ==> s[i] != s[j]
  {
  }

  /** Every slot of a permutation of canonical slots is the canonical slot of its prayer. */
  lemma PermutedSlotIsOwn(slots: seq<Slot>, s: seq<Slot>, k: int)
    requires CanonicalSlots(slots) && multiset(s) == multiset(slots) && 0 <= k < |s|
    ensures s[k] == slots[Rank(s[k].prayer)]
  {
    assert s[k] in multiset(slots);
    var i :| 0 <= i < 5 && slots[i] == s[k];
  }

  /** A permutation of canonical slots holds the slot of every prayer. */
  lemma PermutationCovers(slots: seq<Slot>, s: seq<Slot>, p: Prayer)
    requires CanonicalSlots(slots) && multiset(s) == multiset(slots)
    ensures exists k :: 0 <= k < |s| && s[k] == slots[Rank(p)]
  {
    assert slots[Rank(p)] in multiset(s);
  }

  /** In a sorted permutation of canonical slots no prayer appears twice. */
  lemma SortedPrayersDistinct(slots: seq<Slot>, s: seq<Slot>)
    requires CanonicalSlots(slots) && multiset(s) == multiset(slots) && InOrder(s)
    ensures forall i, j :: 0 <= i < j < |s| ==> s[i].prayer != s[j].prayer
  {
    forall i, j | 0 <= i < j < |s|
      ensures s[i].prayer != s[j].prayer
    {
      PermutedSlotIsOwn(slots, s, i);
      PermutedSlotIsOwn(slots, s, j);
      assert Before(s[i], s[j]);
    }
  }

  /**
   * Sorting the five prayers yields each of them exactly once, ascending in
   * minutes, with prayers at the same minute in the order fajr, dhuhr, asr,
   * maghrib, isha.
   */
  lemma SortedPrayers(slots: seq<Slot>)
    requires CanonicalSlots(slots)
    ensures var s := SortByMinutes(slots);
      && |s| == 5
      && (forall i, j :: 0 <= i < j < 5 ==> s[i].minutes <= s[j].minutes)
      && (forall i, j :: 0 <= i < j < 5 && s[i].minutes == s[j].minutes ==> Rank(s[i].prayer) < Rank(s[j].prayer))
      && (forall i, j :: 0 <= i < j < 5 ==> s[i].prayer != s[j].prayer)
      && (forall p :: exists k :: 0 <= k < 5 && s[k] == slots[Rank(p)])
  {
    assert RanksIncreasing(slots);
    SortSpec(slots);
    var s := SortByMinutes(slots);
    assert |s| == |multiset(s)| == 5;
    InOrderMeans(s);
    SortedPrayersDistinct(slots, s);
    forall p
      ensures exists k :: 0 <= k < 5 && s[k] == slots[Rank(p)]
    {
      PermutationCovers(slots, s, p);
    }
  }

  /** The first position whose minutes are strictly after `now`, or `|s|` when there is none. */
  function FirstAfter(s: seq<Slot>, now: int): (k: nat)
    ensures k <= |s|
    ensures k < |s| ==> now < s[k].minutes
    ensures forall j :: 0 <= j < k ==> s[j].minutes <= now
  {
    if s == [] then 0
    else if now < s[0].minutes then 0
    else 1 + FirstAfter(s[1..], now)
  }

  /** The next prayer's position: the first one after now, or the first of tomorrow. */
  function NextIndex(s: seq<Slot>, now: int): (n: nat)
    requires |s| > 0
    ensures n < |s|
  {
    var k := FirstAfter(s, now);
    if k < |s| then k else 0
  }

  /** The current prayer's position: the one before the next, cyclically. */
  function CurrentIndex(s: seq<Slot>, now: int): (c: nat)
    requires |s| > 0
    ensures c < |s|
    ensures c == (NextIndex(s, now) + |s| - 1) % |s|
  {
    var k := FirstAfter(s, now);
    if 0 < k < |s| then k - 1 else |s| - 1
  }

  /**
   * Over slots ascending in minutes: the next slot is the earliest strictly after
   * now, or the first one (tomorrow's) when none is; the current slot is the
   * latest at or before now, or the last one (yesterday's) when none is.
   */
  lemma PickSpec(s: seq<Slot>, now: int)
    requires |s| > 0
    requires forall i, j :: 0 <= i < j < |s| ==> s[i].minutes <= s[j].minutes
    ensures var n, c := NextIndex(s, now), CurrentIndex(s, now);
      && ((exists i :: 0 <= i < |s| && now < s[i].minutes) ==>
            && now < s[n].minutes
            && (forall i :: 0 <= i < |s| && now < s[i].minutes ==> n <= i))
      && ((forall i :: 0 <= i < |s| ==> s[i].minutes <= now) ==> n == 0 && c == |s| - 1)
      && ((exists i :: 0 <= i < |s| && s[i].minutes <= now) ==>
            && s[c].minutes <= now
            && (forall i :: 0 <= i < |s| && s[i].minutes <= now ==> i <= c))
      && ((forall i :: 0 <= i < |s| ==> now < s[i].minutes) ==> n == 0 && c == |s| - 1)
  {
    var k := FirstAfter(s, now);
    if k < |s| {
      assert forall i :: 0 <= i < |s| && s[i].minutes <= now ==> i < k;
    }
  }

  datatype PrayerRef = PrayerRef(name: string, time: string)

  /** `getCurrentPrayer`'s result: the current prayer's name and time, and the next one's. */
  datatype CurrentPrayer = CurrentPrayer(name: string, time: string, next: PrayerRef)

  /** The answer read off sorted slots at minute `now`. */
  function Pick(s: seq<Slot>, now: int): CurrentPrayer
    requires |s| > 0
  {
    var c := s[CurrentIndex(s, now)];
    var n := s[NextIndex(s, now)];
    CurrentPrayer(DisplayName(c.prayer), c.time, PrayerRef(DisplayName(n.prayer), n.time))
  }
}
