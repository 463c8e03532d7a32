/**
 * The prayer-notification side of the service worker in public/sw.js: the timer
 * table `scheduleNotifications` rebuilds, the notification a fired timer shows,
 * what a click on it does, and which page messages the worker reacts to.
 *
 * Time is a parameter: `nowMs`, the milliseconds since local midnight of the
 * instant the schedule is computed. A day is a fixed 86 400 000 ms.
 */
module Worker {
  import opened Wrappers
  import opened Text
  import opened PrayerNames

  const DayMs: int := 24 * 60 * 60 * 1000
  const HourMs: int := 60 * 60 * 1000
  const MinuteMs: int := 60 * 1000

  /** The message type the page posts to have the notifications (re)scheduled. */
  const ScheduleType: string := "SCHEDULE_PRAYER_NOTIFICATIONS"

  /** An armed `setTimeout`: the display name it will show a notification for, and its delay in ms. */
  datatype Timer = Timer(prayer: string, delay: int)

  /** Every prayer time that is present and not empty is a wall-clock "H:M". */
  predicate TimesWellFormed(times: map<string, string>) {
    forall p :: Key(p) in times && times[Key(p)] != "" ==> IsClockTime(times[Key(p)])
  }

  /** `prayerTimes[prayer]` is truthy: present and not the empty string. */
  predicate Listed(times: map<string, string>, p: Prayer) {
    Key(p) in times && times[Key(p)] != ""
  }

  /** Today at HH:MM:00.000, in ms since midnight (`setHours(h, m, 0, 0)`). */
  function FireInstant(time: string): int
    requires IsClockTime(time)
  {
    HoursOf(time) * HourMs + MinutesOf(time) * MinuteMs
  }

  /** A valid time of day fires within the day. */
  lemma FireInstantWithinDay(time: string)
    requires IsClockTime(time)
    ensures 0 <= FireInstant(time) < DayMs
  {
  }

  /** The delay `scheduleNotifications` computes: today's instant, or tomorrow's when today's is strictly past. */
  function FireDelay(time: string, nowMs: int): int
    requires IsClockTime(time)
  {
    var fire := FireInstant(time);
    var at := if fire < nowMs then fire + DayMs else fire;
    at - nowMs
  }

  /**
   * The delay is the time to the next occurrence of HH:MM, as a residue modulo a
   * day in 0 .. DayMs - 1; it is zero exactly when HH:MM is now.
   */
  lemma FireDelaySpec(time: string, nowMs: int)
    requires IsClockTime(time) && 0 <= nowMs < DayMs
    ensures 0 <= FireDelay(time, nowMs) < DayMs
    ensures FireDelay(time, nowMs) % DayMs == (FireInstant(time) - nowMs) % DayMs
    ensures FireDelay(time, nowMs) == 0 <==> FireInstant(time) == nowMs
  {
    FireInstantWithinDay(time);
  }

  /** What one step of the `forEach` arms for prayer `p`: one timer, or nothing. */
  function Arm(p: Prayer, times: map<string, string>, nowMs: int): seq<Timer>
    requires TimesWellFormed(times)
  {
    if Listed(times, p) && FireDelay(times[Key(p)], nowMs) > 0 then
      [Timer(DisplayName(p), FireDelay(times[Key(p)], nowMs))]
    else []
  }

  /** The timers armed for the prayers `ps`, in order. */
  function Plan(ps: seq<Prayer>, times: map<string, string>, nowMs: int): seq<Timer>
    requires TimesWellFormed(times)
  {
    if ps == [] then []
    else Plan(ps[..|ps| - 1], times, nowMs) + Arm(ps[|ps| - 1], times, nowMs)
  }

  /** The timers a schedule request leaves armed: none when the request carries no times. */
  function Planned(prayerTimes: Option<map<string, string>>, nowMs: int): seq<Timer>
    requires prayerTimes.Some? ==> TimesWellFormed(prayerTimes.value)
  {
    if prayerTimes.None? then [] else Plan(Canonical, prayerTimes.value, nowMs)
  }

  /** A timer is planned for the prayers `ps` exactly when one of them arms it. */
  lemma {:induction false} PlanMembers(ps: seq<Prayer>, times: map<string, string>, nowMs: int)
    requires TimesWellFormed(times)
    ensures |Plan(ps, times, nowMs)| <= |ps|
    ensures forall x :: x in Plan(ps, times, nowMs) <==> exists p :: p in ps && Arm(p, times, nowMs) == [x]
  {
    if ps != [] {
      var init, last := ps[..|ps| - 1], ps[|ps| - 1];
      PlanMembers(init, times, nowMs);
      assert ps == init + [last];
      var arm := Arm(last, times, nowMs);
      assert |arm| <= 1;
      forall x
        ensures x in Plan(ps, times, nowMs) <==> exists p :: p in ps && Arm(p, times, nowMs) == [x]
      {
        PlanMemberStep(init, last, arm, Plan(init, times, nowMs), x, times, nowMs);
      }
    }
  }

  /** One step of `PlanMembers`: a timer of `plan + arm` comes from `init` or from `last`. */
  lemma PlanMemberStep(init: seq<Prayer>, last: Prayer, arm: seq<Timer>, plan: seq<Timer>,
                       x: Timer, times: map<string, string>, nowMs: int)
    requires TimesWellFormed(times)
    requires arm == Arm(last, times, nowMs) && |arm| <= 1
    requires x in plan <==> exists p :: p in init && Arm(p, times, nowMs) == [x]
    ensures x in plan + arm <==> exists p :: p in init + [last] && Arm(p, times, nowMs) == [x]
  {
    if x in plan + arm {
      if x in plan {
        var p :| p in init && Arm(p, times, nowMs) == [x];
        assert p in init + [last];
      } else {
        assert arm == [x];
        assert last in init + [last];
      }
    }
    if exists p :: p in init + [last] && Arm(p, times, nowMs) == [x] {
      var p :| p in init + [last] && Arm(p, times, nowMs) == [x];
      if p in init {
        assert x in plan;
      } else {
        assert p == last;
      }
    }
  }

  /** In the plan for prayers that do not repeat, no two timers are for the same prayer. */
  lemma {:induction false} PlanDistinct(ps: seq<Prayer>, times: map<string, string>, nowMs: int)
    requires TimesWellFormed(times)
    requires forall i, j :: 0 <= i < j < |ps| ==> ps[i] != ps[j]
    ensures var s := Plan(ps, times, nowMs);
      forall i, j :: 0 <= i < j < |s| ==> s[i].prayer != s[j].prayer
  {
    if ps != [] {
      var init, last := ps[..|ps| - 1], ps[|ps| - 1];
      PlanDistinct(init, times, nowMs);
      PlanMembers(init, times, nowMs);
      var s0 := Plan(init, times, nowMs);
      var s := Plan(ps, times, nowMs);
      if Arm(last, times, nowMs) != [] {
        forall i | 0 <= i < |s0|
          ensures s0[i].prayer != DisplayName(last)
        {
          assert s0[i] in s0;
          var p :| p in init && Arm(p, times, nowMs) == [s0[i]];
          assert p != last;
          NamesDistinct(p, last);
        }
      }
    }
  }

  /**
   * After scheduling: at most five timers, at most one per prayer, each armed for
   * between one millisecond and a day; a prayer gets a timer exactly when its
   * time is listed and its next occurrence is strictly in the future, and then
   * with that delay. A prayer whose time is exactly now is therefore dropped, not
   * moved to tomorrow.
   */
  lemma ScheduleSpec(times: map<string, string>, nowMs: int)
    requires TimesWellFormed(times) && 0 <= nowMs < DayMs
    ensures var s := Plan(Canonical, times, nowMs);
      && |s| <= 5
      && (forall i, j :: 0 <= i < j < |s| ==> s[i].prayer != s[j].prayer)
      && (forall x :: x in s ==> 0 < x.delay < DayMs)
      && (forall p, d :: Timer(DisplayName(p), d) in s <==>
            Listed(times, p) && d == FireDelay(times[Key(p)], nowMs) && d > 0)
      && (forall p :: Listed(times, p) && FireInstant(times[Key(p)]) == nowMs ==>
            forall x :: x in s ==> x.prayer != DisplayName(p))
  {
    var s := Plan(Canonical, times, nowMs);
    PlanMembers(Canonical, times, nowMs);
    PlanDistinct(Canonical, times, nowMs);
    forall x | x in s
      ensures 0 < x.delay < DayMs
    {
      var p :| p in Canonical && Arm(p, times, nowMs) == [x];
      FireDelaySpec(times[Key(p)], nowMs);
    }
    forall p, d
      ensures Timer(DisplayName(p), d) in s <==> Listed(times, p) && d == FireDelay(times[Key(p)], nowMs) && d > 0
    {
      assert p in Canonical by { assert Canonical[Rank(p)] == p; }
      if Timer(DisplayName(p), d) in s {
        var q :| q in Canonical && Arm(q, times, nowMs) == [Timer(DisplayName(p), d)];
        if q != p {
          NamesDistinct(q, p);
        }
      }
    }
    forall p | Listed(times, p) && FireInstant(times[Key(p)]) == nowMs
      ensures forall x :: x in s ==> x.prayer != DisplayName(p)
    {
      FireDelaySpec(times[Key(p)], nowMs);
      forall x | x in s
        ensures x.prayer != DisplayName(p)
      {
        var q :| q in Canonical && Arm(q, times, nowMs) == [x];
        if q != p {
          NamesDistinct(q, p);
        }
      }
    }
  }

  /** One entry of `actions` in a notification's options. */
  datatype NotificationAction = NotificationAction(action: string, title: string, icon: string)

  /** The title and options `showNotification` is called with. */
  datatype Notification = Notification(
    title: string,
    body: string,
    icon: string,
    badge: string,
    vibrate: seq<nat>,
    tag: string,
    requireInteraction: bool,
    dataPrayer: string,
    actions: seq<NotificationAction>)

  const AppIcon: string := "/icons/icon-192x192.png"
  const BadgeIcon: string := "/icons/icon-72x72.png"
  const PlayAction: string := "play-azaan"
  const DismissAction: string := "dismiss"

  /** `showPrayerNotification(prayerName)`. */
  function ShowPrayerNotification(prayerName: string): Notification {
    Notification(
      prayerName + " Prayer Time",
      "It's time for " + prayerName + " prayer",
      AppIcon,
      BadgeIcon,
      [200, 100, 200, 100, 200],
      "prayer-notification",
      true,
      prayerName,
      [NotificationAction(PlayAction, "Play Azaan", AppIcon),
       NotificationAction(DismissAction, "Dismiss", AppIcon)])
  }

  /** A fired timer shows the notification for the prayer it was armed for. */
  function Fire(timer: Timer): Notification {
    ShowPrayerNotification(timer.prayer)
  }

  type ClientId = nat

  /** The message posted to a window client. */
  datatype ClientMessage = PlayAzaan(prayer: Option<string>)

  /** What a click leads to besides closing the notification. */
  datatype ClickOutcome =
    | Posted(client: ClientId, message: ClientMessage)   // post to the client, then focus it
    | Focused(client: ClientId)
    | Opened(url: string)
    | NothingMore

  /** The click handler's result: the notification is closed, then the outcome. */
  datatype ClickResult = ClickResult(closed: bool, outcome: ClickOutcome)

  /**
   * The `notificationclick` handler, for the clicked `action`, the clicked
   * notification's `data?.prayer`, and the window clients `matchAll` finds.
   */
  function OnNotificationClick(action: string, dataPrayer: Option<string>, clients: seq<ClientId>): (r: ClickResult)
    ensures r.closed
    ensures r.outcome.NothingMore? <==> action == DismissAction
    ensures r.outcome.Posted? <==> action == PlayAction && |clients| > 0
    ensures r.outcome.Posted? ==> r.outcome == Posted(clients[0], PlayAzaan(dataPrayer))
    ensures r.outcome.Focused? <==> action != PlayAction && action != DismissAction && |clients| > 0
    ensures r.outcome.Focused? ==> r.outcome.client == clients[0]
    ensures r.outcome.Opened? <==> action != DismissAction && |clients| == 0
    ensures r.outcome.Opened? ==> r.outcome.url == (if action == PlayAction then "/?play-azaan=true" else "/")
  {
    var outcome :=
      if action == PlayAction then
        (if |clients| > 0 then Posted(clients[0], PlayAzaan(dataPrayer)) else Opened("/?play-azaan=true"))
      else if action == DismissAction then NothingMore
      else if |clients| > 0 then Focused(clients[0])
      else Opened("/");
    ClickResult(true, outcome)
  }

  /**
   * The notification a planned timer shows names one of the five prayers and
   * offers play and dismiss; playing it from an open window posts that prayer's
   * name to the window, dismissing it does nothing more than close it.
   */
  lemma FiredNotificationRoundTrip(times: map<string, string>, nowMs: int, x: Timer, clients: seq<ClientId>)
    requires TimesWellFormed(times) && 0 <= nowMs < DayMs
    requires x in Plan(Canonical, times, nowMs)
    ensures var n := Fire(x);
      && (exists p ::
            && n.title == DisplayName(p) + " Prayer Time"
            && n.body == "It's time for " + DisplayName(p) + " prayer"
            && n.dataPrayer == DisplayName(p))
      && n.tag == "prayer-notification" && n.requireInteraction
      && |n.actions| == 2
      && (|clients| > 0 ==>
            OnNotificationClick(n.actions[0].action, Some(n.dataPrayer), clients).outcome
              == Posted(clients[0], PlayAzaan(Some(x.prayer))))
      && OnNotificationClick(n.actions[1].action, Some(n.dataPrayer), clients).outcome == NothingMore
  {
    PlanMembers(Canonical, times, nowMs);
    var p :| p in Canonical && Arm(p, times, nowMs) == [x];
    assert x.prayer == DisplayName(p);
  }

  /** A message event's `data`: its `type` and its `prayerTimes`, when present. */
  datatype Message = Message(kind: string, prayerTimes: Option<map<string, string>>)

  /** The worker reacts to a message only when it is the schedule request. */
  predicate Reacts(data: Option<Message>) {
    data.Some? && data.value.kind == ScheduleType
  }

  /** The page's "clear notifications" message, whatever it carries, changes nothing in the worker. */
  lemma ClearNotificationsIgnored(prayerTimes: Option<map<string, string>>)
    ensures !Reacts(Some(Message("CLEAR_NOTIFICATIONS", prayerTimes)))
  {
    assert "CLEAR_NOTIFICATIONS"[0] != ScheduleType[0];
  }

  /** The armed timers listed by `handles`, looked up in the host's timer table. */
  function TimersOf(handles: seq<nat>, table: map<nat, Timer>): seq<Timer>
    requires forall i :: 0 <= i < |handles| ==> handles[i] in table
  {
    seq(|handles|, i requires 0 <= i < |handles| => table[handles[i]])
  }

  /**
   * The worker's notification state: `self.prayerTimers` (timer handles) and the
   * host's table of pending timeouts, with the next handle `setTimeout` hands out.
   */
  class ServiceWorker {
    var prayerTimers: seq<nat>
    var pending: map<nat, Timer>
    var nextHandle: nat

    /** The only pending timeouts are the listed prayer timers, each listed once. */
    ghost predicate Valid()
      reads this
    {
      && (forall h :: h in pending <==> h in prayerTimers)
      && (forall h :: h in pending ==> h < nextHandle)
      && (forall i, j :: 0 <= i < j < |prayerTimers| ==> prayerTimers[i] != prayerTimers[j])
    }

    /** The timers currently armed, in the order they were armed. */
    function Armed(): seq<Timer>
      reads this
      requires Valid()
    {
      TimersOf(prayerTimers, pending)
    }

    constructor ()
      ensures Valid() && prayerTimers == [] && pending == map[]
    {
      prayerTimers := [];
      pending := map[];
      nextHandle := 1;
    }

    /** `setTimeout`: a fresh handle for a new pending timeout. */
    method SetTimeout(timer: Timer) returns (handle: nat)
      modifies this
      ensures handle == old(nextHandle) && nextHandle == handle + 1
      ensures pending == old(pending)[handle := timer]
      ensures prayerTimers == old(prayerTimers)
    {
      handle := nextHandle;
      pending := pending[handle := timer];
      nextHandle := nextHandle + 1;
    }

    /** `clearTimeout`: the timeout no longer fires. */
    method ClearTimeout(handle: nat)
      modifies this
      ensures pending == old(pending) - {handle}
      ensures prayerTimers == old(prayerTimers) && nextHandle == old(nextHandle)
    {
      pending := pending - {handle};
    }

    /** `self.prayerTimers.forEach(timer => clearTimeout(timer))`: no listed timer stays pending. */
    method ClearPrayerTimers()
      requires Valid()
      modifies this
      ensures pending == map[]
      ensures prayerTimers == old(prayerTimers) && nextHandle == old(nextHandle)
    {
      var i := 0;
      while i < |prayerTimers|
        invariant 0 <= i <= |prayerTimers|
        invariant prayerTimers == old(prayerTimers) && nextHandle == old(nextHandle)
        invariant forall h :: h in pending <==> h in prayerTimers[i..]
      {
        ClearTimeout(prayerTimers[i]);
        i := i + 1;
      }
      assert forall h :: h !in pending;
    }

    /**
     * The `forEach` callback for one prayer: when its time is listed, computes
     * the delay to today's HH:MM (tomorrow's when that is strictly past) and, when
     * it is positive, arms a timer and appends its handle.
     */
    method ArmPrayer(prayer: Prayer, times: map<string, string>, nowMs: int)
      requires Valid() && TimesWellFormed(times)
      modifies this
      ensures Valid() && old(nextHandle) <= nextHandle
      ensures forall h :: h in pending && h !in old(pending) ==> old(nextHandle) <= h
      ensures Armed() == old(Armed()) + Arm(prayer, times, nowMs)
    {
      if Key(prayer) in times && times[Key(prayer)] != "" {
        var time := times[Key(prayer)];
        var prayerTime := HoursOf(time) * HourMs + MinutesOf(time) * MinuteMs;
        if prayerTime < nowMs {
          prayerTime := prayerTime + DayMs;
        }
        var timeUntilPrayer := prayerTime - nowMs;
        if timeUntilPrayer > 0 {
          var timer := SetTimeout(Timer(DisplayName(prayer), timeUntilPrayer));
          assert timer !in prayerTimers by {
            assert forall h :: h in prayerTimers ==> h in old(pending) && h < timer;
          }
          prayerTimers := prayerTimers + [timer];
          assert Armed() == old(Armed()) + [Timer(DisplayName(prayer), timeUntilPrayer)];
        }
      }
    }

    /**
     * `scheduleNotifications`: clears every armed timer, then arms one timer per
     * listed prayer whose next occurrence is strictly in the future. Without
     * times the request fails after the clearing, leaving nothing armed.
     */
    method ScheduleNotifications(prayerTimes: Option<map<string, string>>, nowMs: int)
      requires Valid()
      requires prayerTimes.Some? ==> TimesWellFormed(prayerTimes.value)
      modifies this
      ensures Valid()
      ensures Armed() == Planned(prayerTimes, nowMs)
      ensures forall h :: h in pending ==> old(nextHandle) <= h
    {
      ClearPrayerTimers();
      prayerTimers := [];
      if prayerTimes.None? {
        return;
      }
      var times := prayerTimes.value;
      var prayers := Canonical;
      var k := 0;
      while k < |prayers|
        invariant 0 <= k <= |prayers| && prayers == Canonical
        invariant Valid() && old(nextHandle) <= nextHandle
        invariant forall h :: h in pending ==> old(nextHandle) <= h
        invariant Armed() == Plan(prayers[..k], times, nowMs)
      {
        assert prayers[..k + 1][..k] == prayers[..k];
        ArmPrayer(prayers[k], times, nowMs);
        k := k + 1;
      }
      assert prayers[..k] == Canonical;
    }

    /**
     * The `message` handler: a schedule request reschedules with the times it
     * carries; every other message, or none, leaves the worker as it was.
     */
    method HandleMessage(data: Option<Message>, nowMs: int)
      requires Valid() && 0 <= nowMs < DayMs
      requires Reacts(data) && data.value.prayerTimes.Some? ==> TimesWellFormed(data.value.prayerTimes.value)
      modifies this
      ensures Valid()
      ensures Reacts(data) ==> Armed() == Planned(data.value.prayerTimes, nowMs)
      ensures !Reacts(data) ==> prayerTimers == old(prayerTimers) && pending == old(pending)
    {
      if data.Some? && data.value.kind == ScheduleType {
        var prayerTimes := data.value.prayerTimes;
        ScheduleNotifications(prayerTimes, nowMs);
      }
    }
  }
}
