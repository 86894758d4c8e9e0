/** Ramadan mode of src/renderer/js/ramadan.js: the side panel that opens
    in Ramadan or on request, and the countdown to the first of Ramadan
    with its cached Gregorian date. */
module Ramadan {
  import opened Wrappers
  import opened Strings
  import RamadanUI

  /** `lastHijriInfo`: the parsed year and day (`None` for NaN). */
  datatype HijriInfo = HijriInfo(year: Option<int>, day: Option<int>)

  /** `ramadanDateCache`: the target year it was fetched for and the
      Gregorian date text of the first of Ramadan. */
  datatype StartCache = StartCache(year: Option<int>, gregorianDate: string)

  /** The module's state: `isRamadanModeActive`, `manualOverride` (`None`
      for `null`), `lastHijriInfo` and `ramadanDateCache`. */
  datatype Mode = Mode(active: bool, manualOverride: Option<bool>, lastHijriInfo: Option<HijriInfo>, cache: Option<StartCache>)

  /** The module's starting state. */
  const Initial: Mode := Mode(false, None, None, None)

  /** What the mode asks of the window and the network. */
  datatype Effect =
    | Resize(width: int, height: int)
    | LoadCalendar(year: Option<int>, day: Option<int>)
    | Highlight(day: Option<int>)
    | FetchStart(year: Option<int>)

  /** `enableRamadanMode(year, day)`: does nothing when already active;
      otherwise switches on, widens the window and loads the calendar. */
  function Enable(m: Mode, year: Option<int>, day: Option<int>): (r: (Mode, seq<Effect>))
    ensures r.0.active
    ensures m.active ==> r == (m, [])
    ensures !m.active ==> r.0 == m.(active := true) && r.1 == [Resize(750, 540), LoadCalendar(year, day)]
  {
    if m.active then (m, [])
    else (m.(active := true), [Resize(750, 540), LoadCalendar(year, day)])
  }

  /** `disableRamadanMode()`: does nothing when inactive; otherwise
      switches off and narrows the window back. */
  function Disable(m: Mode): (r: (Mode, seq<Effect>))
    ensures !r.0.active
    ensures !m.active ==> r == (m, [])
    ensures m.active ==> r.0 == m.(active := false) && r.1 == [Resize(320, 540)]
  {
    if !m.active then (m, [])
    else (m.(active := false), [Resize(320, 540)])
  }

  /** `toggleRamadanMode()`: an active mode is switched off and pinned off;
      otherwise the mode is pinned on and switched on for the last known
      Hijri date, or for the year `gregorianYear - 579`, day 1, before any
      is known. */
  function Toggle(m: Mode, gregorianYear: int): (r: (Mode, seq<Effect>))
    ensures r.0.active == !m.active
    ensures r.0.manualOverride == Some(!m.active)
    ensures r.0.lastHijriInfo == m.lastHijriInfo && r.0.cache == m.cache
    ensures m.active ==> r.1 == [Resize(320, 540)]
    ensures !m.active && m.lastHijriInfo.Some? ==>
              r.1 == [Resize(750, 540), LoadCalendar(m.lastHijriInfo.value.year, m.lastHijriInfo.value.day)]
    ensures !m.active && m.lastHijriInfo.None? ==>
              r.1 == [Resize(750, 540), LoadCalendar(Some(gregorianYear - 579), Some(1))]
  {
    if m.active then
      var (d, e) := Disable(m);
      (d.(manualOverride := Some(false)), e)
    else
      var pinned := m.(manualOverride := Some(true));
      match m.lastHijriInfo
      case Some(info) => Enable(pinned, info.year, info.day)
      case None => Enable(pinned, Some(gregorianYear - 579), Some(1))
  }

  /** Pressing the toggle twice restores the panel and leaves it pinned in
      that state. */
  lemma ToggleTwice(m: Mode, gregorianYear: int)
    ensures var m2 := Toggle(Toggle(m, gregorianYear).0, gregorianYear).0;
      m2.active == m.active && m2.manualOverride == Some(m.active)
  {
  }

  /** `shouldShowPanel`: the manual choice when there is one, otherwise
      whether the month is Ramadan. */
  function ShowPanel(manualOverride: Option<bool>, month: int): (show: bool)
    ensures show <==> manualOverride == Some(true) || (manualOverride.None? && month == 9)
  {
    if manualOverride.Some? then manualOverride.value else month == 9
  }

  /** The countdown text: cleared, "Ramadan Mubarak", or the days left. */
  datatype Countdown = Cleared | Mubarak | DaysLeft(days: int)

  /** The text for a number of days to the first of Ramadan: shown only
      within 60 days, and the greeting on the day itself. */
  function CountdownText(diffDays: int): (c: Countdown)
    ensures c.DaysLeft? <==> 0 < diffDays <= 60
    ensures c.DaysLeft? ==> c.days == diffDays
    ensures c == Mubarak <==> diffDays == 0
  {
    if 0 < diffDays <= 60 then DaysLeft(diffDays)
    else if diffDays == 0 then Mubarak
    else Cleared
  }

  /** The Hijri date of the day's prayer data: `month.number`, and the
      year and day texts. */
  datatype HijriToday = HijriToday(month: int, year: string, day: string)

  /** The `hToG` answer for the first of Ramadan: thrown, or whether it had
      code 200 with a Gregorian date, and that date's text. */
  datatype StartReply = Thrown | Replied(ok: bool, gregorianDate: string)

  /** `ramadanDateCache.year !== targetYear`: NaN never equals itself. */
  predicate CacheFresh(cache: Option<StartCache>, target: Option<int>) {
    cache.Some? && cache.value.year.Some? && target.Some? && cache.value.year.value == target.value
  }

  /** The result of one countdown update: the state, the text (`None`
      when the element is missing or there is no data, so nothing is
      touched), and the effects. */
  datatype Update = Update(mode: Mode, text: Option<Countdown>, effects: seq<Effect>)

  /** `updateRamadanCountdown(prayerData)`. `reply` is the answer the fetch
      would get, consulted only when the cache does not hold the target
      year; `daysUntil` turns a `DD-MM-YYYY` date into the `Math.ceil` day
      difference from today. */
  function UpdateCountdown(m: Mode, onPage: bool, data: Option<HijriToday>, reply: StartReply,
                           daysUntil: string -> int): (u: Update)
    ensures !onPage || data.None? ==> u == Update(m, None, [])
    ensures onPage && data.Some? ==> u.text.Some? && u.mode.active == ShowPanel(m.manualOverride, data.value.month)
    ensures u.mode.manualOverride == m.manualOverride
    ensures onPage && data.Some? ==>
              u.mode.lastHijriInfo == Some(HijriInfo(ParseInt(data.value.year), ParseInt(data.value.day)))
  {
    if !onPage || data.None? then Update(m, None, [])
    else
      var h := data.value;
      var year, day := ParseInt(h.year), ParseInt(h.day);
      var m1 := m.(lastHijriInfo := Some(HijriInfo(year, day)));
      var step := PanelStep(m1, h.month, year, day);
      var m2, panel := step.0, step.1;
      if h.month == 9 then Update(m2, Some(Mubarak), panel)
      else
        var target := RamadanUI.TargetHijriYear(h.year, h.month);
        if CacheFresh(m2.cache, target) then
          Update(m2, Some(CountdownText(daysUntil(m2.cache.value.gregorianDate))), panel)
        else if reply.Thrown? || !reply.ok then
          Update(m2, Some(Cleared), panel + [FetchStart(target)])
        else
          var m3 := m2.(cache := Some(StartCache(target, reply.gregorianDate)));
          Update(m3, Some(CountdownText(daysUntil(reply.gregorianDate))), panel + [FetchStart(target)])
  }

  /** The panel part of an update: opened (or its day highlighted when
      already open) if it should show, closed otherwise. It never fetches
      and keeps the cache and the manual choice. */
  function PanelStep(m: Mode, month: int, year: Option<int>, day: Option<int>): (r: (Mode, seq<Effect>))
    ensures r.0.active == ShowPanel(m.manualOverride, month)
    ensures r.0.cache == m.cache && r.0.manualOverride == m.manualOverride
    ensures r.0.lastHijriInfo == m.lastHijriInfo
    ensures NoFetch(r.1)
  {
    if ShowPanel(m.manualOverride, month) then
      if !m.active then Enable(m, year, day) else (m, [Highlight(day)])
    else Disable(m)
  }

  /** In Ramadan the greeting is shown and nothing is fetched; the cache
      is untouched. */
  lemma RamadanGreets(m: Mode, h: HijriToday, reply: StartReply, daysUntil: string -> int)
    requires h.month == 9
    ensures var u := UpdateCountdown(m, true, Some(h), reply, daysUntil);
      && u.text == Some(Mubarak)
      && u.mode.cache == m.cache
      && NoFetch(u.effects)
  {
  }

  /** The year whose first of Ramadan is counted down to: the same target
      as the Ramadan page's. */
  lemma CountdownTarget(m: Mode, h: HijriToday, reply: StartReply, daysUntil: string -> int)
    requires h.month != 9 && !CacheFresh(m.cache, RamadanUI.TargetHijriYear(h.year, h.month))
    ensures var u := UpdateCountdown(m, true, Some(h), reply, daysUntil);
      0 < |u.effects| && u.effects[|u.effects| - 1] == FetchStart(RamadanUI.TargetHijriYear(h.year, h.month))
  {
    var year, day := ParseInt(h.year), ParseInt(h.day);
    var step := PanelStep(m.(lastHijriInfo := Some(HijriInfo(year, day))), h.month, year, day);
    assert step.0.cache == m.cache;
    var u := UpdateCountdown(m, true, Some(h), reply, daysUntil);
    assert u.effects == step.1 + [FetchStart(RamadanUI.TargetHijriYear(h.year, h.month))];
  }

  /** A cached date for the target year is used without a fetch; after a
      successful fetch the date is cached for that year, so the next
      update in the same month fetches nothing. */
  lemma CacheReused(m: Mode, h: HijriToday, reply: StartReply, later: StartReply, daysUntil: string -> int)
    requires h.month != 9 && reply.Replied? && reply.ok
    ensures var u1 := UpdateCountdown(m, true, Some(h), reply, daysUntil);
      var u2 := UpdateCountdown(u1.mode, true, Some(h), later, daysUntil);
      RamadanUI.TargetHijriYear(h.year, h.month).Some? ==>
        && u2.mode.cache == u1.mode.cache
        && NoFetch(u2.effects)
        && u2.text == u1.text
  {
    var target := RamadanUI.TargetHijriYear(h.year, h.month);
    if target.Some? {
      var u1 := UpdateCountdown(m, true, Some(h), reply, daysUntil);
      if CacheFresh(m.cache, target) {
        CachedUpdate(m, h, reply, daysUntil);
      } else {
        FetchedUpdate(m, h, reply, daysUntil);
      }
      CachedUpdate(u1.mode, h, later, daysUntil);
    }
  }

  /** No effect is a fetch. */
  predicate NoFetch(effects: seq<Effect>) {
    forall i :: 0 <= i < |effects| ==> !effects[i].FetchStart?
  }

  /** Outside Ramadan, a cache holding the target year answers without a
      fetch and stays as it is. */
  lemma CachedUpdate(m: Mode, h: HijriToday, reply: StartReply, daysUntil: string -> int)
    requires h.month != 9 && CacheFresh(m.cache, RamadanUI.TargetHijriYear(h.year, h.month))
    ensures var u := UpdateCountdown(m, true, Some(h), reply, daysUntil);
      && u.mode.cache == m.cache && NoFetch(u.effects)
      && u.text == Some(CountdownText(daysUntil(m.cache.value.gregorianDate)))
  {
  }

  /** Outside Ramadan, a successful fetch for a year the cache does not
      hold fills the cache with that year's date. */
  lemma FetchedUpdate(m: Mode, h: HijriToday, reply: StartReply, daysUntil: string -> int)
    requires h.month != 9 && !CacheFresh(m.cache, RamadanUI.TargetHijriYear(h.year, h.month))
    requires reply.Replied? && reply.ok
    ensures var u := UpdateCountdown(m, true, Some(h), reply, daysUntil);
      && u.mode.cache == Some(StartCache(RamadanUI.TargetHijriYear(h.year, h.month), reply.gregorianDate))
      && u.text == Some(CountdownText(daysUntil(reply.gregorianDate)))
  {
  }

  /** Outside Ramadan, a failed fetch for a year the cache does not hold
      leaves the countdown cleared and the cache as it was. */
  lemma FailedFetchUpdate(m: Mode, h: HijriToday, reply: StartReply, daysUntil: string -> int)
    requires h.month != 9 && !CacheFresh(m.cache, RamadanUI.TargetHijriYear(h.year, h.month))
    requires reply.Thrown? || !reply.ok
    ensures var u := UpdateCountdown(m, true, Some(h), reply, daysUntil);
      && u.mode.cache == m.cache
      && u.text == Some(Cleared)
  {
  }

  /** A manual choice sticks: after the toggle, updates keep the panel in
      the chosen state whatever the month. */
  lemma ToggleSticks(m: Mode, gregorianYear: int, h: HijriToday, reply: StartReply, daysUntil: string -> int)
    ensures var t := Toggle(m, gregorianYear).0;
      UpdateCountdown(t, true, Some(h), reply, daysUntil).mode.active == t.active
  {
  }

  /** `formatDate(dateStr)`: `DD-MM-YYYY` becomes `DD/MM`; a text with
      any other number of dash-separated parts is returned as it is. */
  function FormatDate(date: string): (r: string)
    ensures |Split(date, '-')| != 3 ==> r == date
  {
    var parts := Split(date, '-');
    if |parts| == 3 then parts[0] + "/" + parts[1] else date
  }

  /** A date written like the Ramadan page's key for today shows as its
      padded day and month; with a negative year the text has a fourth
      part and is shown unchanged. */
  lemma FormatTodayKey(day: nat, month: nat, year: int)
    ensures year >= 0 ==> FormatDate(RamadanUI.TodayKey(day, month, year)) == Pad2(day) + "/" + Pad2(month)
    ensures year < 0 ==> FormatDate(RamadanUI.TodayKey(day, month, year)) == RamadanUI.TodayKey(day, month, year)
  {
    if year >= 0 {
      RamadanUI.TodayKeyParts(day, month, year);
    } else {
      NegativeYearParts(day, month, year);
    }
  }

  lemma NegativeYearParts(day: nat, month: nat, year: int)
    requires year < 0
    ensures |Split(RamadanUI.TodayKey(day, month, year), '-')| == 4
  {
    var a, b, c := Pad2(day), Pad2(month), NatToString(-year);
    RamadanUI.NoDashInPad2(day);
    RamadanUI.NoDashInPad2(month);
    NonDigitAbsent(c, '-', false);
    var x := ['-'] + c;
    var r := b + ['-'] + x;
    assert |Split(x, '-')| == 2 by {
      assert x == "" + ['-'] + c;
      SplitPair("", c, '-');
    }
    assert |Split(r, '-')| == 3 by { SplitConcat(b, x, '-'); }
    assert |Split(a + ['-'] + r, '-')| == 4 by { SplitConcat(a, r, '-'); }
    assert RamadanUI.TodayKey(day, month, year) == a + ['-'] + r by {
      var p := a + ['-'];
      assert RamadanUI.TodayKey(day, month, year) == p + b + ['-'] + x;
      AppendAssoc(p + b, ['-'], x);
      AppendAssoc(p, b, ['-'] + x);
      AppendAssoc(b, ['-'], x);
    }
  }
}
