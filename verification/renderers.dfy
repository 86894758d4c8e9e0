/** The two older copies of the prayer timetable: src/renderer/js/renderer.js
    and the root renderer.js. Both read a timing inline with
    `time.split(':').map(Number)` and run the same cursor as prayer.js; the
    root file also picks the highlighted prayer in `updateUI` with a loop of
    its own over the unshifted times. */
module Renderers {
  import opened Wrappers
  import opened Aladhan
  import opened TimeCodec
  import opened Timetable

  /** Every present timing splits into numeric hours and minutes. */
  predicate InlineReadable(timings: map<PrayerName, string>) {
    forall k :: Present(timings, k) ==> ClockSeconds(timings[k]).Some?
  }

  /** The day as the renderer copies read it: `prayerData.timings[key]`
      truthy, then `hours * 3600 + minutes * 60`. */
  function InlineDay(timings: map<PrayerName, string>): (d: Day)
    requires InlineReadable(timings)
    ensures forall k :: k in d <==> Present(timings, k)
  {
    map k | k in timings && timings[k] != "" :: Reading(timings[k], ClockSeconds(timings[k]).value)
  }

  /** The inline parse agrees with `getSecondsFromTime` on every present
      timing, so the copies see the same day as prayer.js. */
  lemma InlineDayIsReadDay(timings: map<PrayerName, string>)
    requires InlineReadable(timings)
    ensures Readable(timings) && InlineDay(timings) == ReadDay(timings)
  {
    forall k | Present(timings, k) ensures SecondsFromTime(timings[k]) == ClockSeconds(timings[k]) {
    }
  }

  /** The day's timings, when there are any, all split into numbers. */
  predicate InlineData(data: Option<DayData>) {
    data.Some? && data.value.timings.Some? ==> InlineReadable(data.value.timings.value)
  }

  /** The cursor block of the copies' `updateCurrentAndNextPrayer`: `None`
      where they return early on an empty list. */
  function CopyCursor(timings: map<PrayerName, string>, now: int): Option<Cursor>
    requires InlineReadable(timings)
  {
    var L := Schedule(InlineDay(timings), now);
    if |L| == 0 then None else Some(CursorOf(L, now))
  }

  /** The copies pick the same current prayer, next prayer and seconds
      remaining as `getCurrentAndNextPrayer` of prayer.js. */
  lemma CopyCursorAgrees(data: DayData, now: int)
    requires data.timings.Some? && InlineReadable(data.timings.value)
    ensures Readable(data.timings.value)
    ensures CopyCursor(data.timings.value, now) == CurrentAndNext(Some(data), now)
  {
    InlineDayIsReadDay(data.timings.value);
  }

  // ---------------------------------------------------------------------
  // src/renderer/js/renderer.js

  /** The languages of that file's `translations` table. */
  const SrcLanguages: set<string> := {"en", "ar"}

  /** `getCurrentLanguage()`: `currentSettings.language || 'en'`. */
  function CurrentLanguage(setting: string): (lang: string)
    ensures setting != "" ==> lang == setting
    ensures lang != ""
  {
    if setting == "" then "en" else setting
  }

  /** The file's globals the tick writes: `currentActivePrayer` and
      `timeRemaining`. */
  datatype SrcState = SrcState(active: Option<PrayerName>, remaining: int)

  /** The state after a tick and whether `prayerChanged` held. */
  datatype SrcStep = SrcStep(state: SrcState, changed: bool)

  /** `updateCurrentAndNextPrayer()`: without timings it returns at once;
      otherwise `timeRemaining` is zeroed first, and a language outside the
      table makes `translations[lang].prayerNames` throw right after. */
  function SrcTick(st: SrcState, language: string, data: Option<DayData>, now: int): SrcStep
    requires InlineData(data)
  {
    if data.None? || data.value.timings.None? then SrcStep(st, false)
    else
      var cleared := st.(remaining := 0);
      if CurrentLanguage(language) !in SrcLanguages then SrcStep(cleared, false)
      else
        match CopyCursor(data.value.timings.value, now)
        case None => SrcStep(cleared, false)
        case Some(c) => SrcStep(SrcState(Some(c.current.key), c.remaining), st.active != Some(c.current.key))
  }

  /** Without timings the tick leaves both globals alone, the countdown
      included. */
  lemma SrcTickIdle(st: SrcState, language: string, data: Option<DayData>, now: int)
    requires data.None? || data.value.timings.None?
    ensures SrcTick(st, language, data, now) == SrcStep(st, false)
  {
  }

  /** With timings and a known language the tick is the prayer.js cursor:
      the current prayer is recorded, the change is detected by key, and
      the countdown is the cursor's clamped seconds remaining (zero when no
      prayer is present). A language outside the table zeroes the countdown
      and changes nothing else. */
  lemma SrcTickAgrees(st: SrcState, language: string, data: DayData, now: int)
    requires data.timings.Some? && InlineReadable(data.timings.value)
    ensures Readable(data.timings.value)
    ensures var r := SrcTick(st, language, Some(data), now);
      if CurrentLanguage(language) !in SrcLanguages then r == SrcStep(SrcState(st.active, 0), false)
      else match CurrentAndNext(Some(data), now)
        case None => r == SrcStep(SrcState(st.active, 0), false)
        case Some(c) =>
          && r.state == SrcState(Some(c.current.key), c.remaining)
          && r.changed == (st.active != Some(c.current.key))
          && 0 <= r.state.remaining
  {
    CopyCursorAgrees(data, now);
  }

  /** `loadPrayerTimes()`: without a city and a country it returns before
      fetching; an accepted reply replaces `prayerData`; a thrown error or
      another code is caught and leaves it. Neither `currentActivePrayer`
      nor `timeRemaining` is touched. */
  function SrcLoad(city: string, country: string, day: Option<DayData>, reply: Reply): (r: Option<DayData>)
    ensures r != day ==> city != "" && country != "" && Accepted(reply)
    ensures city != "" && country != "" && Accepted(reply) ==> r == reply.data
  {
    if city == "" || country == "" then day
    else if Accepted(reply) then reply.data
    else day
  }

  // ---------------------------------------------------------------------
  // renderer.js (the root copy)

  /** The tick of the root copy; `timeRemaining` is local there, so only
      `currentActivePrayer` persists. */
  datatype RootStep = RootStep(active: Option<PrayerName>, changed: bool)

  function RootTick(active: Option<PrayerName>, data: Option<DayData>, now: int): RootStep
    requires InlineData(data)
  {
    if data.None? || data.value.timings.None? then RootStep(active, false)
    else
      match CopyCursor(data.value.timings.value, now)
      case None => RootStep(active, false)
      case Some(c) => RootStep(Some(c.current.key), active != Some(c.current.key))
  }

  /** The root tick records the same current prayer as prayer.js and
      detects a change by key; without a cursor nothing changes. */
  lemma RootTickAgrees(active: Option<PrayerName>, data: Option<DayData>, now: int)
    requires InlineData(data)
    ensures data.Some? && data.value.timings.Some? ==> Readable(data.value.timings.value)
    ensures var r := RootTick(active, data, now);
      && (data.None? || data.value.timings.None? ==> r == RootStep(active, false))
      && (data.Some? && data.value.timings.Some? ==>
            match CurrentAndNext(data, now)
            case None => r == RootStep(active, false)
            case Some(c) => r == RootStep(Some(c.current.key), active != Some(c.current.key)))
  {
    if data.Some? && data.value.timings.Some? {
      CopyCursorAgrees(data.value, now);
    }
  }

  /** Whether `updateUI` throws once `prayerData` is set: it reads
      `date.readable`, `date.hijri.day` and `timings[key]` without guards,
      and its countdown refresh names a `timeRemaining` the file never
      declares, which throws whenever a countdown is on the page. */
  predicate UiThrows(day: Option<DayData>, countdownOnPage: bool) {
    day.Some? && (day.value.date.None? || day.value.date.value.hijri.None? || day.value.timings.None? || countdownOnPage)
  }

  /** `loadPrayerTimes()` of the root copy: the new `prayerData` and the
      value the promise resolves to. A missing location throws before the
      fetch. An accepted reply is stored before `updateUI` runs, so a
      failure inside `updateUI` still resolves `false`; with a day and a countdown
      element on the page that is every load. */
  function RootLoad(city: string, country: string, day: Option<DayData>, reply: Reply,
                    countdownOnPage: bool): (r: (Option<DayData>, bool))
    ensures r.1 ==> city != "" && country != "" && Accepted(reply) && r.0 == reply.data
    ensures r.0 != day ==> city != "" && country != "" && Accepted(reply)
    ensures city == "" || country == "" || !Accepted(reply) ==> r == (day, false)
    ensures countdownOnPage && r.0.Some? ==> !r.1
    ensures city != "" && country != "" && Accepted(reply) ==> r.0 == reply.data
    ensures r.1 <==> city != "" && country != "" && Accepted(reply) && !UiThrows(reply.data, countdownOnPage)
  {
    if city == "" || country == "" then (day, false)
    else if Accepted(reply) then (reply.data, !UiThrows(reply.data, countdownOnPage))
    else (day, false)
  }

  /** What the highlighted key of `updateUI` means: it exists exactly when
      some prayer is present, it names the current prayer, and on a day of
      clock times it is the cursor's current prayer. */
  predicate HighlightsCurrent(day: Day, now: int, key: Option<PrayerName>) {
    && (key.Some? <==> exists k :: k in day)
    && (key.Some? ==> IsCurrent(day, now, key.value))
    && (key.Some? && WithinDay(day) && 0 <= now < SecondsPerDay ==>
          0 < |Schedule(day, now)| && key.value == CursorOf(Schedule(day, now), now).current.key)
  }

  /** The list `updateUI` walks: the present prayers sorted by clock time. */
  function UiList(day: Day, now: int): seq<Prayer> {
    SortBySeconds(Rows(PrayerOrder, day, now, false))
  }

  /** `updateUI` with a loaded day: the key of the last prayer, in
      ascending clock order, whose time has come, else the last prayer of
      the list; `None` for `''` when no prayer is present. Times are not
      moved to tomorrow here. */
  method UiCurrentKey(day: Day, now: int) returns (key: Option<PrayerName>)
    ensures HighlightsCurrent(day, now, key)
  {
    var L := UiList(day, now);
    var i;
    key, i := LastPassed(L, now);
    UiKeyMeaning(day, now, i, key);
  }

  /** The loop of `updateUI` over a list: it stops at the first entry
      whose time has not come; `i` is where it stopped. */
  method LastPassed(L: seq<Prayer>, now: int) returns (key: Option<PrayerName>, i: int)
    ensures 0 <= i <= |L|
    ensures forall j :: 0 <= j < i ==> L[j].seconds <= now
    ensures i < |L| ==> now < L[i].seconds
    ensures key == if |L| == 0 then None else if i == 0 then Some(L[|L| - 1].key) else Some(L[i - 1].key)
  {
    key := None;
    i := 0;
    while i < |L|
      invariant 0 <= i <= |L|
      invariant forall j :: 0 <= j < i ==> L[j].seconds <= now
      invariant key == if i == 0 then None else Some(L[i - 1].key)
    {
      if L[i].seconds <= now {
        key := Some(L[i].key);
        i := i + 1;
      } else {
        break;
      }
    }
    if key.None? && 0 < |L| {
      key := Some(L[|L| - 1].key);
    }
  }

  lemma UiKeyMeaning(day: Day, now: int, i: int, key: Option<PrayerName>)
    requires 0 <= i <= |UiList(day, now)|
    requires forall j :: 0 <= j < i ==> UiList(day, now)[j].seconds <= now
    requires i < |UiList(day, now)| ==> now < UiList(day, now)[i].seconds
    requires var L := UiList(day, now);
      key == if |L| == 0 then None else if i == 0 then Some(L[|L| - 1].key) else Some(L[i - 1].key)
    ensures HighlightsCurrent(day, now, key)
  {
    var L := UiList(day, now);
    SortedRows(day, now, false);
    if 0 < |L| {
      var c := if i == 0 then |L| - 1 else i - 1;
      assert CurrentAt(L, now, c) by { UiLoopResult(L, day, now, i, c); }
      CurrentAtMeansIsCurrent(L, day, now, false, c);
      assert L[c].key in day;
      if WithinDay(day) && 0 <= now < SecondsPerDay {
        UiKeyIsCursor(day, now, L[c].key);
      }
    } else {
      assert Covers(L, day);
    }
  }

  /** On a day of clock times the current prayer is the cursor's. */
  lemma UiKeyIsCursor(day: Day, now: int, k: PrayerName)
    requires WithinDay(day) && 0 <= now < SecondsPerDay && IsCurrent(day, now, k)
    ensures 0 < |Schedule(day, now)| && k == CursorOf(Schedule(day, now), now).current.key
  {
    ScheduleEmpty(day, now);
    CursorCurrent(day, now);
    IsCurrentUnique(day, now, k, CursorOf(Schedule(day, now), now).current.key);
  }

  /** Where the loop of `updateUI` stops: every entry before `i` has come,
      the one at `i` (if any) has not, so the entry before `i` is in
      effect, or the last entry when none has come. */
  lemma UiLoopResult(L: seq<Prayer>, day: Day, now: int, i: int, c: int)
    requires RowsOf(L, day, now, false) && Ascending(L) && 0 < |L| && 0 <= i <= |L|
    requires forall j :: 0 <= j < i ==> L[j].seconds <= now
    requires i < |L| ==> now < L[i].seconds
    requires c == if i == 0 then |L| - 1 else i - 1
    ensures CurrentAt(L, now, c)
  {
    assert forall j :: 0 <= j < |L| ==> L[j].seconds == L[j].raw;
    forall j | i <= j < |L| ensures now < L[j].raw {
      if i < j {
        assert LexBefore(L[i], L[j]);
      }
    }
    forall j | 0 <= j < |L| && j != c && (i == 0 || j < i) ensures RawBefore(L[j], L[c]) {
      assert j < c;
      assert LexBefore(L[j], L[c]);
    }
    if 0 < i {
      assert L[c].raw <= now;
    }
  }

  /** `updateSaveButtonTheme(theme)`: the theme's gradient from the table,
      navy for any other theme. */
  const Gradients: map<string, string> := map[
    "navy" := "linear-gradient(90deg, #0a1128, #1a237e)",
    "green" := "linear-gradient(90deg, #1b5e20, #2e7d32)",
    "brown" := "linear-gradient(90deg, #4e342e, #6d4c41)",
    "gold" := "linear-gradient(90deg, #8e6e19, #b5982c)",
    "pink" := "linear-gradient(90deg, #7a1a4a, #b51a5c)"]

  function SaveButtonGradient(theme: string): (g: string)
    ensures g in Gradients.Values
    ensures theme in Gradients ==> g == Gradients[theme]
    ensures theme !in Gradients ==> g == Gradients["navy"]
  {
    if theme in Gradients then Gradients[theme] else Gradients["navy"]
  }

  /** A theme outside the table, such as `dark`, gets the navy gradient. */
  lemma DarkThemeIsNavy()
    ensures SaveButtonGradient("dark") == "linear-gradient(90deg, #0a1128, #1a237e)"
  {
  }
}
