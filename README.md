# Azaan prayer times — a verified model of the core

Azaan is a progressive web app for one masjid. It keeps the daily prayer times
(fajr, dhuhr, asr, maghrib, isha) in a date-keyed table. An admin signs in with a
one-time passcode to add, update and delete entries. The home page shows the
current prayer, the next prayer and a countdown to it. A service worker arms one
timer per remaining prayer and shows a notification when a timer fires.

This project models that core in Dafny and proves properties of it:

- `wrappers.dfy`: `Option`, `Outcome` and `Result`.
- `text.dfy`: the JavaScript string behaviour the time handling relies on.
  This covers `split` with a one-character separator, `Number`/`parseInt` on digit
  strings, `String(n)`, `padStart(2, '0')` and zero-padded "HH:MM" strings.
- `prayer_names.dfy`: the five prayers, their storage keys and display names, in
  canonical order. The store and the worker each spell this table out; the model
  defines it once.
- `utils.dfy`: the 24-hour ⇄ 12-hour time-string conversions (`src/lib/utils.ts`).
- `prayer_service.dfy`: the prayer-times table (`src/lib/prayer-service.ts`). It is
  an insertion-ordered map from date to record, as a JavaScript `Map` is, held by a
  `PrayerService` class whose methods update it.
- `auth_service.dfy`: the passcode gate (`src/lib/auth-service.ts`). It is a table
  from email to pending code, held by an `AuthService` class.
- `prayer_order.dfy`: the stable sort of the five prayers by minute of the day. It
  also picks the current and the next prayer from the sorted list.
- `countdown.dfy`: the "Xh Ym" / "Ym" countdown and its inverse.
- `prayer_store.dfy`: the prayer-times store (`src/store/prayer-store.ts`). It is a
  `Store` class with the loaded record and the `loading` and `error` flags.
- `service_worker.dfy`: the notification part of `public/sw.js`. It covers the timer
  list `scheduleNotifications` rebuilds, the notification a fired timer shows, the
  click handler and the message handler. A `ServiceWorker` class holds the timer
  handles and the host's table of pending timeouts.

Clocks are parameters. The store takes the minute of the day
(`getHours() * 60 + getMinutes()`). The worker takes milliseconds since local
midnight. The passcode gate takes `Date.now()` in milliseconds.

## Model

| member | source | states |
|---|---|---|
| Text.Split | src/lib/utils.ts:10 | `split` gives at least one piece; a string without the separator is its own single piece |
| Text.SplitAtFirst | src/lib/utils.ts:18 | what precedes the first separator is the first piece, and the rest splits on its own |
| Text.NatToString | src/store/prayer-store.ts:136 | `String(n)` is one or more digits with no leading zero; it is one digit exactly below 10 |
| Text.ParseNatToString | src/lib/utils.ts:13 | `Number` reads back what `String(n)` wrote as `n` |
| Text.ParsePad2 | src/lib/utils.ts:13 | padding to two digits never changes the number read back |
| Text.Clock | src/lib/utils.ts:28 | the zero-padded "HH:MM" splits at ':' into the two padded fields and reads back as its hour and minute |
| Text.ClockFields | src/lib/utils.ts:28 | every hour 0..23 and minute 0..59 gives a five-character valid time of day |
| PrayerNames.Rank | src/store/prayer-store.ts:25 | each prayer sits at its own position in the canonical key list |
| PrayerNames.NamesDistinct | src/store/prayer-store.ts:25-32 | different prayers have different keys and different display names |
| Utils.Hour12 | src/lib/utils.ts:12 | the 12-hour dial hour equals the hour modulo 12 and lies in 1..12 for hours 0..23 |
| Utils.TimePartFields | src/lib/utils.ts:13 | "h:mm" has no space and reads back as the unpadded hour and the padded minutes |
| Utils.FormatTime12Hour | src/lib/utils.ts:9-14 | `formatTime12Hour`; what it produces is stated by `Utils.FormatTime12HourFields` and `Utils.RoundTrip` |
| Utils.FormatTime12HourFields | src/lib/utils.ts:9-14 | the 12-hour string is a time part and a period; the time part splits into the unpadded dial hour (`String(n)`) and the minutes padded to two digits; the period is PM exactly from hour 12 |
| Utils.Hour24 | src/lib/utils.ts:21-26 | for hours 0..12: 12 AM becomes 0 and other AM hours stay; PM adds 12 except to 12; any other period, or none, keeps the hour |
| Utils.FormatTime24Hour | src/lib/utils.ts:17-29 | the result splits at ':' into exactly the converted hour and the minutes, each padded to two digits; it reads back as them, and it is five characters when both fit in two digits |
| Utils.RoundTrip | src/lib/utils.ts:9-29 | converting a valid "HH:MM" to 12-hour form and back gives the original string |
| Prayers.IndexOfDate | src/lib/prayer-service.ts:54 | the first position holding the date, or the table length when the date is absent |
| Prayers.Get | src/lib/prayer-service.ts:54 | a record is found exactly when some entry has the date, and it is that entry's record |
| Prayers.Values | src/lib/prayer-service.ts:71 | all records in insertion order |
| Prayers.Put | src/lib/prayer-service.ts:92 | `Map.set`; its meaning is stated by `Prayers.PutSpec` |
| Prayers.PutSpec | src/lib/prayer-service.ts:92 | after a set, the date holds the new record and every other date keeps its own; dates stay distinct; the length grows only for a new date |
| Prayers.QueryItems | src/lib/prayer-service.ts:47-77 | the response `getItems` builds; `Prayers.PrayerService.GetItems`, `Prayers.AddThenQuery` and `Prayers.DeleteThenQuery` state it |
| Prayers.Stamped | src/lib/prayer-service.ts:83-90 | the record `addItem` stores; `Prayers.PrayerService.AddItem` and `Prayers.AddThenQuery` state where it lands and what a query returns |
| Prayers.FirstWithId | src/lib/prayer-service.ts:124-125 | the first position in insertion order whose `_id` matches, or the table length |
| Prayers.RemoveAt | src/lib/prayer-service.ts:126 | deleting one entry shortens the table by one |
| Prayers.RemoveAtSpec | src/lib/prayer-service.ts:126 | the deleted date no longer has a record, every other date keeps its own, and the table invariants hold |
| Prayers.PrayerService.GetItems | src/lib/prayer-service.ts:47-77 | a non-empty date gives its record with total 1, or nothing with total 0; no date gives every record in order |
| Prayers.PrayerService.AddItem | src/lib/prayer-service.ts:79-96 | upserts under the record's date, stamped with `_id` = `_uid` = "prayer_<now>" and `updated_at` = now; other dates unchanged |
| Prayers.PrayerService.UpdateItem | src/lib/prayer-service.ts:98-116 | an absent date fails and changes nothing; otherwise the record is replaced in place with `updated_at` = now |
| Prayers.PrayerService.DeleteItem | src/lib/prayer-service.ts:118-134 | removes the first record in insertion order with the `_id`, or fails and changes nothing |
| Prayers.AddThenQuery | src/lib/prayer-service.ts:47-96 | a record just added is exactly what a query for its date returns |
| Prayers.DeleteThenQuery | src/lib/prayer-service.ts:47-134 | after deleting a record by id, a query for its date finds nothing |
| Auth.LocalUser | src/lib/auth-service.ts:93-100 | the user created on success carries the verified email |
| Auth.Issue | src/lib/auth-service.ts:39-61 | after sending, exactly one code is pending: the fixed code for that email, stamped now |
| Auth.Verify | src/lib/auth-service.ts:63-107 | success exactly when a code is pending, not expired and equal; each error exactly in its case; the entry survives only a wrong code; other emails untouched |
| Auth.AuthService.SendOTP | src/lib/auth-service.ts:39-61 | the pending table becomes the single fresh entry |
| Auth.AuthService.VerifyOTP | src/lib/auth-service.ts:63-107 | result and new table are those `Verify` gives |
| Auth.SendThenVerify | src/lib/auth-service.ts:39-107 | a code just sent is accepted exactly when at most five minutes have passed, and it is then gone |
| Auth.ExpiryBoundary | src/lib/auth-service.ts:78 | a code exactly five minutes old is accepted; one millisecond later it has expired |
| Auth.SingleUse | src/lib/auth-service.ts:102-104 | a code that was accepted is not accepted again |
| Auth.RetryAfterWrongCode | src/lib/auth-service.ts:87-90 | a wrong code keeps the entry, so the right code in time still succeeds |
| Auth.SendDiscardsOthers | src/lib/auth-service.ts:43-52 | sending a code to one email voids the code of any other |
| PrayerOrder.SortByMinutes | src/store/prayer-store.ts:92 | the stable sort by minutes; `PrayerOrder.SortSpec` and `PrayerOrder.SortedPrayers` state that it is a permutation, ascending, ties in input order |
| PrayerOrder.InsertPermutes | src/store/prayer-store.ts:92 | insertion adds exactly the one slot |
| PrayerOrder.InsertInOrder | src/store/prayer-store.ts:92 | inserting a lower-ranked slot into a sorted list keeps it sorted, equal minutes in rank order |
| PrayerOrder.SortSpec | src/store/prayer-store.ts:92 | sorting slots in canonical order gives a permutation ascending in minutes, with ties in input order |
| PrayerOrder.SortKeepsOrdered | src/store/prayer-store.ts:92 | slots already in order are left as they are |
| PrayerOrder.InOrderMeans | src/store/prayer-store.ts:92 | sorted slots ascend in minutes, keep ties in canonical order and never repeat |
| PrayerOrder.PermutedSlotIsOwn | src/store/prayer-store.ts:88-92 | after sorting, each slot is still its prayer's own slot |
| PrayerOrder.PermutationCovers | src/store/prayer-store.ts:88-92 | after sorting, every prayer's slot is present |
| PrayerOrder.SortedPrayersDistinct | src/store/prayer-store.ts:88-92 | after sorting, no prayer appears twice |
| PrayerOrder.SortedPrayers | src/store/prayer-store.ts:88-92 | the sorted list holds each prayer's own slot exactly once, ascending in minutes, ties in canonical order |
| PrayerOrder.FirstAfter | src/store/prayer-store.ts:97-105 | the first position strictly after now; every earlier slot is at or before now |
| PrayerOrder.NextIndex | src/store/prayer-store.ts:95-104 | the next prayer's position is within the list |
| PrayerOrder.CurrentIndex | src/store/prayer-store.ts:94-102 | the current prayer is the one before the next, cyclically |
| PrayerOrder.PickSpec | src/store/prayer-store.ts:94-105 | next = earliest strictly after now, else the first (tomorrow); current = latest at or before now, else the last (yesterday) |
| Countdown.FormatCountdown | src/store/prayer-store.ts:132-138 | the countdown string; `Countdown.CountdownRoundTrip` states its shape and that it reads back as the total |
| Countdown.MinutesUntil | src/store/prayer-store.ts:125-130 | the minutes to the next prayer are 1..1440 and congruent to next − now modulo a day |
| Countdown.AmountFields | src/store/prayer-store.ts:136-138 | "{n}h" / "{n}m" has no space and reads back as n |
| Countdown.AmountsSplit | src/store/prayer-store.ts:136 | "{h}h {m}m" splits at its one space into the two amounts |
| Countdown.HoursAndMinutesValue | src/store/prayer-store.ts:136 | "{h}h {m}m" reads back as 60·h + m minutes |
| Countdown.CountdownMinutesOnly | src/store/prayer-store.ts:138 | under an hour the countdown is the single amount "{m}m", which reads back as the total |
| Countdown.CountdownWithHours | src/store/prayer-store.ts:132-136 | from an hour on the countdown splits at one space into "{total / 60}h" and "{total % 60}m", and reads back as the total |
| Countdown.CountdownRoundTrip | src/store/prayer-store.ts:132-138 | "{m}m" under an hour, otherwise "{h}h {m}m" with h at least 1 and m = total mod 60, each amount unpadded `String(n)`; the string reads back as the total minutes |
| Countdown.CountdownExamples | src/store/prayer-store.ts:132-138 | 105 minutes show as "1h 45m", 340 as "5h 40m", 45 as "45m" |
| PrayerStore.TimeToMinutes | src/store/prayer-store.ts:142-145 | `timeToMinutes`; `PrayerStore.TimeToMinutesSpec` and `PrayerStore.TimeToMinutesOfClock` state its value |
| PrayerStore.TimeToMinutesSpec | src/store/prayer-store.ts:142-145 | the minutes divide back into the hour and minute read; a valid time of day lands in 0..1439 |
| PrayerStore.TimeToMinutesOfClock | src/store/prayer-store.ts:142-145 | "HH:MM" is 60·HH + MM minutes after midnight |
| PrayerStore.Slots | src/store/prayer-store.ts:88-91 | the five slots in key order, each with its prayer's stored time and minutes |
| PrayerStore.SortedSlots | src/store/prayer-store.ts:88-92 | the sorted list has five slots |
| PrayerStore.SortedSlotIsOwn | src/store/prayer-store.ts:88-92 | each sorted slot carries its own prayer's stored time and minutes |
| PrayerStore.EvaluateNamesStoredPrayers | src/store/prayer-store.ts:107-114 | current and next are each one of the record's prayers, named for display and timed as stored |
| PrayerStore.NextTimeReadsBack | src/store/prayer-store.ts:123 | the next prayer's time string reads back as the minutes it was sorted by |
| PrayerStore.ValidSlotsWithinDay | src/store/prayer-store.ts:142-145 | with valid times every sorted slot falls within the day |
| PrayerStore.TimeUntilNextSpec | src/store/prayer-store.ts:117-139 | with valid times the countdown is 1..1440 minutes, congruent to the next prayer minus now modulo a day, and the string states it exactly |
| PrayerStore.ExampleSorted | src/store/prayer-store.ts:88-92 | times 05:30, 12:30, 15:45, 18:15 and 19:30 sort in canonical order |
| PrayerStore.AfternoonExample | src/store/prayer-store.ts:81-139 | at 14:00 it is Dhuhr, Asr is next, in "1h 45m" |
| PrayerStore.NightExample | src/store/prayer-store.ts:81-139 | at 23:50 it is still Isha, and tomorrow's Fajr is next, in "5h 40m" |
| PrayerStore.ToPrayerTimes | src/store/prayer-store.ts:50-61 | every field is copied; a non-empty masjid name is kept and an empty one becomes "Local Masjid" |
| PrayerStore.Settle | src/store/prayer-store.ts:48-77 | exactly one of times and error is set: the first item when there is one, "not found" for none, "failed" when the lookup threw |
| PrayerStore.FetchFromTable | src/store/prayer-store.ts:43-49 | a non-empty date loads the record under that date or nothing, and what it loads is that record with the defaults filled in; the empty date loads the table's first record whatever its date |
| PrayerStore.Store.constructor | src/store/prayer-store.ts:35-37 | nothing loaded, not loading, no error |
| PrayerStore.Store.FetchPrayerTimes | src/store/prayer-store.ts:39-78 | ends not loading, with the times and error `Settle` gives; exactly one is set |
| PrayerStore.Store.GetCurrentPrayer | src/store/prayer-store.ts:81-115 | nothing exactly when no record is loaded; otherwise the loop's answer equals the specification `Evaluate` |
| PrayerStore.Store.GetTimeUntilNext | src/store/prayer-store.ts:117-139 | "" when nothing is loaded; otherwise the countdown to the next prayer |
| Worker.FireInstantWithinDay | public/sw.js:166-168 | today's HH:MM:00.000 falls within the day |
| Worker.FireDelay | public/sw.js:166-175 | the delay one prayer gets; `Worker.FireDelaySpec` states its range and meaning |
| Worker.FireDelaySpec | public/sw.js:166-177 | the delay is 0..one day less 1 ms, congruent to fire − now modulo a day, and zero exactly when the prayer is now |
| Worker.Plan | public/sw.js:164-185 | the timers the `forEach` arms, in order; `Worker.PlanMembers`, `Worker.PlanDistinct` and `Worker.ScheduleSpec` state what they are |
| Worker.PlanMembers | public/sw.js:164-185 | at most one timer per prayer; a timer is armed exactly when some prayer arms it |
| Worker.PlanDistinct | public/sw.js:155-185 | no two armed timers are for the same prayer |
| Worker.ScheduleSpec | public/sw.js:147-186 | at most five timers, one per prayer, each 1 ms to under a day; a prayer has a timer exactly when listed with a positive delay; a prayer at exactly now has none |
| Worker.OnNotificationClick | public/sw.js:97-128 | the notification is closed; play posts the prayer to the first client or opens "/?play-azaan=true"; dismiss does nothing more; otherwise focus the first client or open "/" |
| Worker.ShowPrayerNotification | public/sw.js:189-212 | the notification record `showPrayerNotification` shows; `Worker.FiredNotificationRoundTrip` states its title, data and actions |
| Worker.FiredNotificationRoundTrip | public/sw.js:189-212 | a fired timer's notification names its prayer in title, body and data, carries the prayer tag, requires interaction and offers play and dismiss; play posts that prayer's name, dismiss does nothing more |
| Worker.ClearNotificationsIgnored | public/sw.js:139-144 | the page's CLEAR_NOTIFICATIONS message is not one the worker reacts to |
| Worker.ServiceWorker.SetTimeout | public/sw.js:178-180 | a fresh handle, with the timer added to the pending table |
| Worker.ServiceWorker.ClearTimeout | public/sw.js:151 | the handle's timer is no longer pending |
| Worker.ServiceWorker.ClearPrayerTimers | public/sw.js:150-153 | no listed timer stays pending |
| Worker.ServiceWorker.ArmPrayer | public/sw.js:164-185 | the armed timers grow by exactly what the prayer arms, with fresh handles |
| Worker.ServiceWorker.ScheduleNotifications | public/sw.js:147-186 | old timers are cancelled and the armed timers become exactly the plan for the times, or none without times |
| Worker.ServiceWorker.HandleMessage | public/sw.js:139-144 | a schedule request reschedules with its times; any other message changes nothing |

## Left out

- The React pages and components, `cn` in `src/lib/utils.ts`, the notification service on the page side and `vite.config.ts`: UI and build glue, not core logic.
- The service worker's install, activate, fetch, push and sync handlers and its caches: browser caching and network I/O.
- Real timers and the clock: delays are values in a pending table, and a timer that fires is shown by `Worker.Fire`. The worker reads the clock three times per prayer (`public/sw.js:167`, `:171` and `:175`); the model reads it once, as `nowMs`. A day is a fixed 86 400 000 ms, so daylight-saving changes are not modelled.
- `localStorage`, `JSON` and the storage keys: each table is a field of its class, and a storage error is not modelled.
- Asynchrony: `await`, the simulated network delays in `sendOTP` and `logout`, and `logout` itself, which does nothing else.
- `console` logging.
- The empty string stands for an `undefined` masjid name; both are falsy in the source.
- `self.prayerTimers` starts as `[]`, not `undefined`; the guard at `public/sw.js:150` only skips clearing an absent list.
- A schedule message without `prayerTimes` clears the timers and then throws a `TypeError`; the model stops after the clearing and arms nothing.
- Worker.ServiceWorker.ScheduleNotifications: requires every listed time to be "H:M" with hours 0..23 and minutes 0..59. Other strings (NaN from `parseInt`, or an hour that `setHours` rolls into the next day) are not modelled.
- PrayerStore.Store.GetCurrentPrayer: requires every stored time to read as two numbers. A time that gives NaN, and how the sort then orders it, is not modelled.
- PrayerStore.Store.GetTimeUntilNext: takes one minute-of-day reading for the whole call, where the source reads the clock again after `getCurrentPrayer`.
- Prayers.PrayerService.AddItem: one clock reading serves both the identifier and `updated_at`; the source reads `Date.now()` twice (`src/lib/prayer-service.ts:83` and `:89`), so the two may differ there by a millisecond.
- Text.ParseDecimal: reads every digit string exactly; JavaScript's `Number` and `parseInt` round values above 2^53. Hours and minutes that large are not modelled, and `Utils.FormatTime12Hour` and `PrayerStore.Store.GetCurrentPrayer` inherit that bound.
- Text.NatToString: writes every number in plain digits; JavaScript's `String(n)` switches to exponent form from 1e21. Countdowns, hours and timestamps that large are not modelled.
- Auth.Verify: the user's `uid`, `createdTime` and `lastLoginTime` come from the same clock reading as the expiry check.
