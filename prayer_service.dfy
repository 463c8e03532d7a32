/**
 * The date-keyed prayer-times table of src/lib/prayer-service.ts. The source keeps a
 * JavaScript `Map` from date string to record; a `Map` remembers insertion order,
 * which `deleteItem` (first match wins) and `getItems` (all values) both observe, so
 * the model keeps the entries as an ordered list of (date, record) pairs with
 * distinct dates. `set` on a date already present replaces the value in place.
 */
module Prayers {
  import opened Wrappers
  import opened Text

  /** A stored record (the `PrayerTime` interface); `_id` and `_uid` may be absent. */
  datatype PrayerRecord = PrayerRecord(
    id: Option<string>,
    uid: Option<string>,
    date: string,
    fajr: string,
    dhuhr: string,
    asr: string,
    maghrib: string,
    isha: string,
    masjidName: string,
    updatedAt: int)

  datatype TableResponse = TableResponse(items: seq<PrayerRecord>, total: nat)

  /** The two errors the table throws. */
  datatype ServiceError = NoRecordForDate(date: string) | NoRecordWithId(id: Option<string>)

  type Entries = seq<(string, PrayerRecord)>

  /** No date occurs twice, as in a `Map`. */
  predicate DistinctDates(es: Entries) {
    forall i, j :: 0 <= i < j < |es| ==> es[i].0 != es[j].0
  }

  /** Every record is stored under its own date. */
  predicate KeyedByDate(es: Entries) {
    forall i :: 0 <= i < |es| ==> es[i].0 == es[i].1.date
  }

  /** The position of `date` in insertion order, or `|es|` when it is absent. */
  function IndexOfDate(es: Entries, date: string): (i: nat)
    ensures i <= |es|
    ensures i < |es| ==> es[i].0 == date
    ensures forall j :: 0 <= j < i ==> es[j].0 != date
  {
    if es == [] then 0
    else if es[0].0 == date then 0
    else 1 + IndexOfDate(es[1..], date)
  }

  /** `Map.get`: the record stored under `date`, if any. */
  function Get(es: Entries, date: string): (r: Option<PrayerRecord>)
    ensures r.Some? <==> exists i :: 0 <= i < |es| && es[i].0 == date
    ensures r.Some? ==> exists i :: 0 <= i < |es| && es[i] == (date, r.value)
  {
    var i := IndexOfDate(es, date);
    if i < |es| then Some(es[i].1) else None
  }

  /** `Array.from(map.values())`. */
  function Values(es: Entries): (vs: seq<PrayerRecord>)
    ensures |vs| == |es|
    ensures forall i :: 0 <= i < |es| ==> vs[i] == es[i].1
  {
    seq(|es|, i requires 0 <= i < |es| => es[i].1)
  }

  /** `Map.set`: overwrite the value in place when `date` is present, otherwise append. */
  function Put(es: Entries, date: string, rec: PrayerRecord): Entries {
    var i := IndexOfDate(es, date);
    if i < |es| then es[i := (date, rec)] else es + [(date, rec)]
  }

  /**
   * After `Put`, `date` holds `rec` and every other date holds what it held; the
   * invariants of the table survive when `rec` belongs to `date`.
   */
  lemma PutSpec(es: Entries, date: string, rec: PrayerRecord)
    requires DistinctDates(es)
    ensures Get(Put(es, date, rec), date) == Some(rec)
    ensures forall d :: d != date ==> Get(Put(es, date, rec), d) == Get(es, d)
    ensures DistinctDates(Put(es, date, rec))
    ensures KeyedByDate(es) && rec.date == date ==> KeyedByDate(Put(es, date, rec))
    ensures |Put(es, date, rec)| == if Get(es, date).Some? then |es| else |es| + 1
  {
    var r := Put(es, date, rec);
    var i := IndexOfDate(es, date);
    assert r[i] == (date, rec);
    forall d | d != date
      ensures Get(r, d) == Get(es, d)
    {
      var j := IndexOfDate(es, d);
      var k := IndexOfDate(r, d);
      assert forall n :: 0 <= n < |es| && n != i ==> r[n] == es[n];
      if j < |es| {
        assert r[j] == es[j];
        assert k == j;
      } else {
        assert k == |r|;
      }
    }
  }

  /** `getItems`: one record or none for a non-empty date, every record otherwise. */
  function QueryItems(es: Entries, date: Option<string>): TableResponse {
    if date.Some? && date.value != "" then
      match Get(es, date.value)
      case Some(rec) => TableResponse([rec], 1)
      case None => TableResponse([], 0)
    else
      TableResponse(Values(es), |es|)
  }

  /** The identifier `addItem` gives a record created at `now`. */
  function NewId(now: nat): string {
    "prayer_" + NatToString(now)
  }

  /** The record `addItem` stores: the caller's fields with a fresh `_id`/`_uid` and timestamp. */
  function Stamped(data: PrayerRecord, now: nat): PrayerRecord {
    data.(id := Some(NewId(now)), uid := Some(NewId(now)), updatedAt := now)
  }

  /** The position, in insertion order, of the first record whose `_id` is `id`, or `|es|`. */
  function FirstWithId(es: Entries, id: Option<string>): (i: nat)
    ensures i <= |es|
    ensures i < |es| ==> es[i].1.id == id
    ensures forall j :: 0 <= j < i ==> es[j].1.id != id
  {
    if es == [] then 0
    else if es[0].1.id == id then 0
    else 1 + FirstWithId(es[1..], id)
  }

  /** `Map.delete` of the entry at position `i`: the others keep their order. */
  function RemoveAt(es: Entries, i: nat): (r: Entries)
    requires i < |es|
    ensures |r| == |es| - 1
  {
    es[..i] + es[i + 1..]
  }

  /** Removing one entry drops exactly its date and leaves every other date's record alone. */
  lemma RemoveAtSpec(es: Entries, i: nat)
    requires i < |es| && DistinctDates(es)
    ensures Get(RemoveAt(es, i), es[i].0).None?
    ensures forall d :: d != es[i].0 ==> Get(RemoveAt(es, i), d) == Get(es, d)
    ensures DistinctDates(RemoveAt(es, i))
    ensures KeyedByDate(es) ==> KeyedByDate(RemoveAt(es, i))
  {
    var r := RemoveAt(es, i);
    assert forall n :: 0 <= n < i ==> r[n] == es[n];
    assert forall n :: i <= n < |r| ==> r[n] == es[n + 1];
    forall d | d != es[i].0
      ensures Get(r, d) == Get(es, d)
    {
      var j := IndexOfDate(es, d);
      var k := IndexOfDate(r, d);
      if j < i {
        assert r[j] == es[j];
        assert k == j;
      } else if j < |es| {
        assert j > i;
        assert r[j - 1] == es[j];
        assert k == j - 1;
      } else {
        assert k == |r|;
      }
    }
  }

  class PrayerService {
    /** The table, in insertion order. */
    var entries: Entries

    ghost predicate Valid()
      reads this
    {
      DistinctDates(entries) && KeyedByDate(entries)
    }

    constructor ()
      ensures Valid() && entries == []
    {
      entries := [];
    }

    /**
     * `getItems`: with a non-empty date, exactly the record stored under it (total 1)
     * or nothing (total 0); without one, every record in insertion order. The table
     * id and the limit play no part.
     */
    method GetItems(tableId: string, date: Option<string>, limit: Option<int>) returns (resp: TableResponse)
      ensures date.Some? && date.value != "" ==>
        (Get(entries, date.value).Some? ==> resp == TableResponse([Get(entries, date.value).value], 1)) &&
        (Get(entries, date.value).None? ==> resp == TableResponse([], 0))
      ensures (date.None? || date.value == "") ==>
        resp.items == Values(entries) && resp.total == |entries|
      ensures resp == QueryItems(entries, date)
    {
      if date.Some? && date.value != "" {
        var item := Get(entries, date.value);
        if item.Some? {
          return TableResponse([item.value], 1);
        } else {
          return TableResponse([], 0);
        }
      }
      var allItems := Values(entries);
      resp := TableResponse(allItems, |allItems|);
    }

    /** `addItem`: upsert under `data.date` with `_id` = `_uid` = "prayer_<now>" and `updated_at` = now. */
    method AddItem(tableId: string, data: PrayerRecord, now: nat)
      requires Valid()
      modifies this
      ensures Valid()
      ensures entries == Put(old(entries), data.date, Stamped(data, now))
      ensures Get(entries, data.date) == Some(Stamped(data, now))
      ensures forall d :: d != data.date ==> Get(entries, d) == Get(old(entries), d)
    {
      var newId := NewId(now);
      var newPrayerTime := data.(id := Some(newId), uid := Some(newId), updatedAt := now);
      PutSpec(entries, data.date, newPrayerTime);
      entries := Put(entries, data.date, newPrayerTime);
    }

    /** `updateItem`: throws and changes nothing when `data.date` has no record; otherwise replaces it, stamped with now. */
    method UpdateItem(tableId: string, data: PrayerRecord, now: nat) returns (r: Outcome<ServiceError>)
      requires Valid()
      modifies this
      ensures Valid()
      ensures Get(old(entries), data.date).None? ==> r == Fail(NoRecordForDate(data.date)) && entries == old(entries)
      ensures Get(old(entries), data.date).Some? ==>
        && r == Pass
        && entries == Put(old(entries), data.date, data.(updatedAt := now))
        && Get(entries, data.date) == Some(data.(updatedAt := now))
        && |entries| == |old(entries)|
      ensures forall d :: d != data.date ==> Get(entries, d) == Get(old(entries), d)
    {
      if Get(entries, data.date).None? {
        return Fail(NoRecordForDate(data.date));
      }
      var updatedPrayerTime := data.(updatedAt := now);
      PutSpec(entries, data.date, updatedPrayerTime);
      entries := Put(entries, data.date, updatedPrayerTime);
      r := Pass;
    }

    /**
     * `deleteItem`: walks the table in insertion order and removes the first record
     * whose `_id` equals `id` (an absent `_id` equals an absent `id`, as `undefined`
     * does); throws and changes nothing when there is none.
     */
    method DeleteItem(tableId: string, id: Option<string>) returns (r: Outcome<ServiceError>)
      requires Valid()
      modifies this
      ensures Valid()
      ensures FirstWithId(old(entries), id) == |old(entries)| ==>
        r == Fail(NoRecordWithId(id)) && entries == old(entries)
      ensures FirstWithId(old(entries), id) < |old(entries)| ==>
        r == Pass && entries == RemoveAt(old(entries), FirstWithId(old(entries), id))
    {
      var i := 0;
      while i < |entries|
        invariant 0 <= i <= |entries|
        invariant forall j :: 0 <= j < i ==> entries[j].1.id != id
      {
        if entries[i].1.id == id {
          RemoveAtSpec(entries, i);
          entries := RemoveAt(entries, i);
          return Pass;
        }
        i := i + 1;
      }
      r := Fail(NoRecordWithId(id));
    }
  }

  /** A record just added is what a query for its date returns, alone. */
  lemma AddThenQuery(es: Entries, data: PrayerRecord, now: nat)
    requires DistinctDates(es) && data.date != ""
    ensures QueryItems(Put(es, data.date, Stamped(data, now)), Some(data.date)) == TableResponse([Stamped(data, now)], 1)
  {
    PutSpec(es, data.date, Stamped(data, now));
  }

  /** Deleting by the id of a record leaves its date with no record, so a later query finds nothing. */
  lemma DeleteThenQuery(es: Entries, id: Option<string>)
    requires DistinctDates(es) && FirstWithId(es, id) < |es|
    ensures var date := es[FirstWithId(es, id)].0;
      date != "" ==> QueryItems(RemoveAt(es, FirstWithId(es, id)), Some(date)) == TableResponse([], 0)
  {
    RemoveAtSpec(es, FirstWithId(es, id));
  }
}
