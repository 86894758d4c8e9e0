/** The per-prayer Adhan setting of prayer.js and the gate that decides,
    when the current prayer changes, whether the Adhan is announced. */
module Adhan {
  import opened Wrappers
  import opened Aladhan
  import opened TimeCodec

  /** A value of `adhanEnabledByPrayer[key]`: `true` (with sound),
      `'silent'`, `false` (off), or `undefined` (never set). */
  datatype Mute = Sound | Silent | Off | Unset {

    /** How the value is read: `undefined` counts as `true`. */
    function Effective(): (m: Mute)
      ensures m != Unset
      ensures this != Unset ==> m == this
    {
      if this == Unset then Sound else this
    }
  }

  /** One press of a prayer's Adhan button: `true` or `undefined` becomes
      `'silent'`, `'silent'` becomes `false`, anything else `true`. */
  function Toggle(m: Mute): (r: Mute)
    ensures r != Unset && r != m
  {
    match m
    case Sound => Silent
    case Unset => Silent
    case Silent => Off
    case Off => Sound
  }

  /** `adhanEnabledByPrayer[key]`: a missing key reads `undefined`. */
  function MuteOf(mutes: map<PrayerName, Mute>, k: PrayerName): Mute {
    if k in mutes then mutes[k] else Unset
  }

  /** `toggleAdhanForPrayer(key)` on the map. */
  function ToggleFor(mutes: map<PrayerName, Mute>, k: PrayerName): (r: map<PrayerName, Mute>)
    ensures k in r && r[k] == Toggle(MuteOf(mutes, k))
    ensures forall k' :: k' != k ==> MuteOf(r, k') == MuteOf(mutes, k')
    ensures r.Keys == mutes.Keys + {k}
  {
    mutes[k := Toggle(MuteOf(mutes, k))]
  }

  /** Three presses bring every setting back to how it reads. */
  lemma ToggleThrice(m: Mute)
    ensures Toggle(Toggle(Toggle(m))).Effective() == m.Effective()
    ensures m != Unset ==> Toggle(Toggle(Toggle(m))) == m
  {
  }

  /** The cycle passes through each of the three readable states. */
  lemma ToggleCycle(m: Mute)
    ensures {Toggle(m), Toggle(Toggle(m)), Toggle(Toggle(Toggle(m)))} == {Sound, Silent, Off}
  {
  }

  /** Pressing one prayer's button three times restores every prayer's
      setting as the gate reads it, and changes no other prayer's entry. */
  lemma ToggleForThrice(mutes: map<PrayerName, Mute>, k: PrayerName)
    ensures var r := ToggleFor(ToggleFor(ToggleFor(mutes, k), k), k);
      forall k' :: MuteOf(r, k').Effective() == MuteOf(mutes, k').Effective()
  {
    var r := ToggleFor(ToggleFor(ToggleFor(mutes, k), k), k);
    forall k' ensures MuteOf(r, k').Effective() == MuteOf(mutes, k').Effective() {
      if k' == k {
        ToggleThrice(MuteOf(mutes, k));
      }
    }
  }

  /** The map `updatePrayerUI` loads: a copy of the saved
      `adhanEnabledByPrayer` when there is one, otherwise `true` for every
      prayer. */
  function Reload(saved: Option<map<PrayerName, Mute>>): (r: map<PrayerName, Mute>)
    ensures saved.Some? ==> r == saved.value
    ensures saved.None? ==> forall k :: MuteOf(r, k) == Sound
  {
    match saved
    case Some(m) => m
    case None =>
      assert forall k :: k in PrayerOrder by {
        forall k ensures k in PrayerOrder { assert PrayerOrder[k.Ord()] == k; }
      }
      map k | k in PrayerOrder :: Sound
  }

  /** The window after a prayer's time in which its Adhan is still
      announced: 15 minutes. */
  const Tolerance: int := 900

  /** `currentSeconds - prayerSecondsRaw`, with a day added when the
      difference is below minus half a day (the prayer was before midnight
      and the clock has passed it). */
  function AdhanDelay(now: int, raw: int): (d: int)
    ensures now - raw < -43200 ==> d == now - raw + SecondsPerDay
    ensures -43200 <= now - raw ==> d == now - raw
  {
    var diff := now - raw;
    if diff < -43200 then diff + SecondsPerDay else diff
  }

  /** `checkAndPlayAdhan(prayer, now)`: the mode `notifyPrayer` receives,
      or `None` when nothing is announced. */
  function AdhanCall(mutes: map<PrayerName, Mute>, k: PrayerName, raw: int, now: int): (r: Option<Mute>)
    ensures r.Some? <==> 0 <= AdhanDelay(now, raw) <= Tolerance && MuteOf(mutes, k).Effective() != Off
    ensures r.Some? ==> r.value == MuteOf(mutes, k).Effective() && (r.value == Sound || r.value == Silent)
  {
    var diff := AdhanDelay(now, raw);
    if 0 <= diff <= Tolerance then
      var state := MuteOf(mutes, k).Effective();
      if state != Off then Some(state) else None
    else None
  }

  /** For clock times within a day, the corrected delay lies in the window
      exactly when the prayer's time is at most 15 minutes behind the clock,
      counting round midnight. */
  lemma AdhanWindowOnClock(now: int, raw: int)
    requires 0 <= now < SecondsPerDay && 0 <= raw < SecondsPerDay
    ensures 0 <= AdhanDelay(now, raw) <= Tolerance <==> (now - raw) % SecondsPerDay <= Tolerance
  {
    var diff := now - raw;
    if diff < -43200 {
      assert diff % SecondsPerDay == diff + SecondsPerDay;
    } else if diff < 0 {
      assert diff % SecondsPerDay == diff + SecondsPerDay;
    } else {
      assert diff % SecondsPerDay == diff;
    }
  }

  /** Isha at 23:50 with the clock at 00:05 is fifteen minutes late and is
      still announced. */
  lemma IshaPastMidnight()
    ensures AdhanDelay(300, 85800) == 900
    ensures AdhanCall(map[], Isha, 85800, 300) == Some(Sound)
  {
  }
}
