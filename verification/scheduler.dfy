/** The once-a-second tick of prayer.js (`updateCurrentAndNextPrayer`), the
    Adhan button (`toggleAdhanForPrayer`) and the state effects of
    `loadPrayerTimes`, as transitions of a `Session` that emit the
    notifications as events. */
module Scheduler {
  import opened Wrappers
  import opened Aladhan
  import opened TimeCodec
  import opened Timetable
  import opened Adhan

  /** The module-level variables of prayer.js that persist across ticks. */
  datatype Session = Session(
    currentActive: Option<PrayerName>,  // currentActivePrayer
    firstLoad: bool,                    // isFirstLoad
    lastReminded: Option<PrayerName>,   // lastPreAdhanNotificationPrayer
    mutes: map<PrayerName, Mute>)       // adhanEnabledByPrayer

  /** The values the script starts with. */
  const Start: Session := Session(None, true, None, map[])

  /** The saved settings the tick reads. */
  datatype Prefs = Prefs(
    preAdhanMinutes: Option<int>,
    preAdhanEnabled: Option<bool>,
    adhanByPrayer: Option<map<PrayerName, Mute>>)

  /** `state.settings.preAdhanMinutes || 5`: absent or zero means five. */
  function ReminderMinutes(prefs: Prefs): (m: int)
    ensures m != 0
    ensures prefs.preAdhanMinutes.Some? && prefs.preAdhanMinutes.value != 0 ==> m == prefs.preAdhanMinutes.value
  {
    match prefs.preAdhanMinutes
    case Some(m) => if m == 0 then 5 else m
    case None => 5
  }

  /** `state.settings.preAdhanNotificationEnabled !== false`. */
  predicate RemindersOn(prefs: Prefs) {
    prefs.preAdhanEnabled != Some(false)
  }

  /** What the tick announces: the reminder before a prayer (a desktop
      notification) and the Adhan itself (`notifyPrayer`). */
  datatype Event = Reminder(prayer: PrayerName, minutes: int) | Announce(prayer: PrayerName, mode: Mute)

  /** The session after a transition and the events it emitted, in order. */
  datatype Step = Step(session: Session, events: seq<Event>)

  /** The day's timings, when there are any, all read as numbers. */
  predicate ReadableData(data: Option<DayData>) {
    data.Some? && data.value.timings.Some? ==> Readable(data.value.timings.value)
  }

  /** The reminder is due: reminders are on, the next prayer is at most the
      configured minutes away but not yet here, and it was not the last
      prayer reminded of. */
  predicate ReminderDue(s: Session, prefs: Prefs, c: Cursor) {
    && RemindersOn(prefs)
    && c.remaining <= ReminderMinutes(prefs) * 60
    && 0 < c.remaining
    && s.lastReminded != Some(c.next.key)
  }

  /** The pre-Adhan part of the tick. */
  function Remind(s: Session, prefs: Prefs, c: Cursor): Step {
    if ReminderDue(s, prefs, c) then
      Step(s.(lastReminded := Some(c.next.key)), [Reminder(c.next.key, ReminderMinutes(prefs))])
    else Step(s, [])
  }

  /** What `updatePrayerUI` changes in the session: it reloads the Adhan
      settings from the saved ones. */
  function Refresh(s: Session, prefs: Prefs): (r: Session)
    ensures r.currentActive == s.currentActive && r.firstLoad == s.firstLoad && r.lastReminded == s.lastReminded
  {
    s.(mutes := Reload(prefs.adhanByPrayer))
  }

  /** `updateCurrentAndNextPrayer()` at `now` seconds past midnight: nothing
      happens unless the day yields a current and a next prayer. */
  function Tick(s: Session, prefs: Prefs, data: Option<DayData>, now: int): Step
    requires ReadableData(data)
  {
    match CurrentAndNext(data, now)
    case None => Step(s, [])
    case Some(c) => Advance(s, prefs, c, now)
  }

  /** The tick once the cursor `c` is known: the reminder, then the change
      of current prayer with the Adhan gate, which is skipped on the first
      change after start. */
  function Advance(s: Session, prefs: Prefs, c: Cursor, now: int): Step {
    var reminded := Remind(s, prefs, c);
    var s1 := reminded.session.(currentActive := Some(c.current.key));
    if reminded.session.currentActive != Some(c.current.key) then
      var s2 := Refresh(s1, prefs);
      var call := if s2.firstLoad then None else AdhanCall(s2.mutes, c.current.key, c.current.raw, now);
      var announced := if call.Some? then [Announce(c.current.key, call.value)] else [];
      Step(s2.(firstLoad := false), reminded.events + announced)
    else Step(s1, reminded.events)
  }

  /** The tick changed the current prayer. */
  predicate Changed(s: Session, c: Cursor) {
    s.currentActive != Some(c.current.key)
  }

  function Reminders(events: seq<Event>): (n: nat)
    ensures n <= |events|
  {
    if |events| == 0 then 0
    else (if events[0].Reminder? then 1 else 0) + Reminders(events[1..])
  }

  function Announcements(events: seq<Event>): (n: nat)
    ensures n <= |events|
  {
    if |events| == 0 then 0
    else (if events[0].Announce? then 1 else 0) + Announcements(events[1..])
  }

  lemma {:induction false} CountsAppend(a: seq<Event>, b: seq<Event>)
    ensures Reminders(a + b) == Reminders(a) + Reminders(b)
    ensures Announcements(a + b) == Announcements(a) + Announcements(b)
  {
    if |a| == 0 {
      assert a + b == b;
    } else {
      assert (a + b)[1..] == a[1..] + b;
      CountsAppend(a[1..], b);
    }
  }

  /** Without timings, or with no prayer present, the tick changes nothing
      and announces nothing. */
  lemma TickIdle(s: Session, prefs: Prefs, data: Option<DayData>, now: int)
    requires ReadableData(data)
    requires data.None? || data.value.timings.None? || forall k :: !Present(data.value.timings.value, k)
    ensures Tick(s, prefs, data, now) == Step(s, [])
  {
  }

  /** On every evaluated tick the session records the current prayer; only
      the reminder touches the last reminded prayer, and only the change of
      prayer touches the first-load flag and the Adhan settings. */
  lemma AdvanceSession(s: Session, prefs: Prefs, c: Cursor, now: int)
    ensures var r := Advance(s, prefs, c, now).session;
      && r.currentActive == Some(c.current.key)
      && r.lastReminded == (if ReminderDue(s, prefs, c) then Some(c.next.key) else s.lastReminded)
      && r.firstLoad == (s.firstLoad && !Changed(s, c))
      && r.mutes == (if Changed(s, c) then Reload(prefs.adhanByPrayer) else s.mutes)
  {
  }

  /** The reminder is emitted exactly when it is due, once, naming the next
      prayer and the minutes in effect. */
  lemma AdvanceReminder(s: Session, prefs: Prefs, c: Cursor, now: int)
    ensures var events := Advance(s, prefs, c, now).events;
      && Reminders(events) == (if ReminderDue(s, prefs, c) then 1 else 0)
      && (ReminderDue(s, prefs, c) ==> events[0] == Reminder(c.next.key, ReminderMinutes(prefs)))
  {
    var reminded := Remind(s, prefs, c);
    var events := Advance(s, prefs, c, now).events;
    var call := if !Changed(s, c) || s.firstLoad then None
                else AdhanCall(Reload(prefs.adhanByPrayer), c.current.key, c.current.raw, now);
    var announced := if call.Some? then [Announce(c.current.key, call.value)] else [];
    assert events == reminded.events + announced;
    CountsAppend(reminded.events, announced);
  }

  /** The Adhan is announced exactly when the current prayer changed, it is
      not the first change since start, and the gate lets it through with
      the reloaded settings. */
  lemma AdvanceAnnounce(s: Session, prefs: Prefs, c: Cursor, now: int)
    ensures var events := Advance(s, prefs, c, now).events;
      var call := AdhanCall(Reload(prefs.adhanByPrayer), c.current.key, c.current.raw, now);
      && Announcements(events) == (if Changed(s, c) && !s.firstLoad && call.Some? then 1 else 0)
      && (Changed(s, c) && !s.firstLoad && call.Some? ==>
            events[|events| - 1] == Announce(c.current.key, call.value))
  {
    var reminded := Remind(s, prefs, c);
    var events := Advance(s, prefs, c, now).events;
    var call := if !Changed(s, c) || s.firstLoad then None
                else AdhanCall(Reload(prefs.adhanByPrayer), c.current.key, c.current.raw, now);
    var announced := if call.Some? then [Announce(c.current.key, call.value)] else [];
    assert events == reminded.events + announced;
    CountsAppend(reminded.events, announced);
  }

  /** Ticks at the successive clock readings `nows`. */
  function Run(s: Session, prefs: Prefs, data: Option<DayData>, nows: seq<int>): (r: Step)
    requires ReadableData(data)
    decreases |nows|
  {
    if |nows| == 0 then Step(s, [])
    else
      var first := Tick(s, prefs, data, nows[0]);
      var rest := Run(first.session, prefs, data, nows[1..]);
      Step(rest.session, first.events + rest.events)
  }

  /** At `now` the cursor's next prayer is `k`. */
  predicate NextIs(data: Option<DayData>, now: int, k: PrayerName)
    requires ReadableData(data)
  {
    var r := CurrentAndNext(data, now);
    r.Some? && r.value.next.key == k
  }

  /** While the next prayer stays the same, its reminder is emitted at most
      once, and not at all if it was already the last one reminded of. */
  lemma {:induction false} ReminderOnce(s: Session, prefs: Prefs, data: Option<DayData>, nows: seq<int>, k: PrayerName)
    requires ReadableData(data)
    requires forall i :: 0 <= i < |nows| ==> NextIs(data, nows[i], k)
    ensures Reminders(Run(s, prefs, data, nows).events) <= (if s.lastReminded == Some(k) then 0 else 1)
    ensures s.lastReminded == Some(k) ==> Run(s, prefs, data, nows).session.lastReminded == Some(k)
    decreases |nows|
  {
    if |nows| > 0 {
      var c := CurrentAndNext(data, nows[0]).value;
      assert NextIs(data, nows[0], k);
      var first := Tick(s, prefs, data, nows[0]);
      AdvanceReminder(s, prefs, c, nows[0]);
      AdvanceSession(s, prefs, c, nows[0]);
      assert first.session.lastReminded == Some(k) || first.session.lastReminded == s.lastReminded;
      assert forall i :: 0 <= i < |nows[1..]| ==> NextIs(data, nows[1..][i], k) by {
        forall i | 0 <= i < |nows[1..]| ensures NextIs(data, nows[1..][i], k) {
          assert nows[1..][i] == nows[i + 1];
        }
      }
      ReminderOnce(first.session, prefs, data, nows[1..], k);
      CountsAppend(first.events, Run(first.session, prefs, data, nows[1..]).events);
    }
  }

  /** Once cleared the first-load flag stays cleared, and while it is set
      nothing is announced: the first change of prayer after start clears
      it without an Adhan. */
  lemma {:induction false} FirstLoadOnce(s: Session, prefs: Prefs, data: Option<DayData>, nows: seq<int>)
    requires ReadableData(data)
    ensures !s.firstLoad ==> !Run(s, prefs, data, nows).session.firstLoad
    ensures Run(s, prefs, data, nows).session.firstLoad ==> Announcements(Run(s, prefs, data, nows).events) == 0
    decreases |nows|
  {
    if |nows| > 0 {
      var first := Tick(s, prefs, data, nows[0]);
      var rest := Run(first.session, prefs, data, nows[1..]);
      FirstLoadOnce(first.session, prefs, data, nows[1..]);
      CountsAppend(first.events, rest.events);
      match CurrentAndNext(data, nows[0])
      case None =>
      case Some(c) =>
        AdvanceSession(s, prefs, c, nows[0]);
        AdvanceAnnounce(s, prefs, c, nows[0]);
    }
  }

  /** `toggleAdhanForPrayer(key)`: the setting cycles, is saved, and
      `updatePrayerUI` reloads the saved copy when a day is loaded. */
  function ToggleAdhan(s: Session, prefs: Prefs, hasDay: bool, k: PrayerName): (r: (Session, Prefs))
    ensures r.1.adhanByPrayer == Some(ToggleFor(s.mutes, k))
    ensures r.0.mutes == ToggleFor(s.mutes, k)
    ensures r.0.currentActive == s.currentActive && r.0.firstLoad == s.firstLoad && r.0.lastReminded == s.lastReminded
  {
    var mutes := ToggleFor(s.mutes, k);
    var saved := prefs.(adhanByPrayer := Some(mutes));
    var s1 := s.(mutes := mutes);
    (if hasDay then Refresh(s1, saved) else s1, saved)
  }

  /** `loadPrayerTimes()`: with a location set, an accepted reply replaces
      the day and `updatePrayerUI` reloads the Adhan settings; a missing
      location, a failed request or a code other than 200 leaves the day as
      it was. The tick's own variables are never reset. */
  function LoadPrayerTimes(s: Session, prefs: Prefs, city: string, country: string,
                           day: Option<DayData>, reply: Reply): (r: (Session, Option<DayData>))
    ensures r.0.currentActive == s.currentActive && r.0.firstLoad == s.firstLoad && r.0.lastReminded == s.lastReminded
    ensures r.1 != day ==> city != "" && country != "" && Accepted(reply) && r.1 == reply.data
    ensures city != "" && country != "" && Accepted(reply) ==>
              && r.1 == reply.data
              && (reply.data.Some? ==> r.0.mutes == Reload(prefs.adhanByPrayer))
              && (reply.data.None? ==> r.0 == s)
    ensures !(city != "" && country != "" && Accepted(reply)) ==> r == (s, day)
  {
    if city == "" || country == "" then (s, day)
    else if Accepted(reply) then
      var loaded := reply.data;
      (if loaded.Some? then Refresh(s, prefs) else s, loaded)
    else (s, day)
  }
}
