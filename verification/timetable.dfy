/** The prayer timetable behind `getCurrentAndNextPrayer` (prayer.js) and the
    two renderer copies of `updateCurrentAndNextPrayer`: the list of present
    prayers with past ones moved to tomorrow, sorted by time, and the cursor
    that picks the current prayer, the next one and the seconds remaining. */
module Timetable {
  import opened Wrappers
  import opened Aladhan
  import opened TimeCodec
  import opened JsNumber

  /** `prayerData.timings[key]` is truthy: present and not the empty text. */
  predicate Present(timings: map<PrayerName, string>, k: PrayerName) {
    k in timings && timings[k] != ""
  }

  /** Every present timing reads as a number; none is NaN. */
  predicate Readable(timings: map<PrayerName, string>) {
    forall k :: Present(timings, k) ==> SecondsFromTime(timings[k]).Some?
  }

  /** A present prayer's clock text and its seconds since midnight. */
  datatype Reading = Reading(time: string, raw: int)

  /** The present prayers of a day and their readings. */
  type Day = map<PrayerName, Reading>

  /** Reads every present timing with `getSecondsFromTime`. */
  function ReadDay(timings: map<PrayerName, string>): (d: Day)
    requires Readable(timings)
    ensures forall k :: k in d <==> Present(timings, k)
    ensures forall k :: k in d ==> d[k].time == timings[k] && SecondsFromTime(timings[k]) == Some(d[k].raw)
  {
    map k | k in timings && timings[k] != "" :: Reading(timings[k], SecondsFromTime(timings[k]).value)
  }

  /** Every reading falls within one day. */
  predicate WithinDay(day: Day) {
    forall k :: k in day ==> 0 <= day[k].raw < SecondsPerDay
  }

  /** An entry of the list: the key, the clock text, its seconds since
      midnight, and the seconds the list is sorted by. */
  datatype Prayer = Prayer(key: PrayerName, time: string, raw: int, seconds: int)

  /** A prayer whose time is already past is taken as tomorrow's. */
  function Shift(raw: int, now: int): (s: int)
    ensures raw < now ==> s == raw + SecondsPerDay
    ensures now <= raw ==> s == raw
  {
    if raw < now then raw + SecondsPerDay else raw
  }

  /** The entry of a present prayer; `shift` says whether a past time is
      moved to tomorrow (the cursor does, the root `updateUI` does not). */
  function Row(k: PrayerName, day: Day, now: int, shift: bool): Prayer
    requires k in day
  {
    var raw := day[k].raw;
    Prayer(k, day[k].time, raw, if shift then Shift(raw, now) else raw)
  }

  /** `keys.filter(key => timings[key]).map(...)`. */
  function Rows(keys: seq<PrayerName>, day: Day, now: int, shift: bool): (r: seq<Prayer>)
    ensures |r| <= |keys|
  {
    if |keys| == 0 then []
    else
      (if keys[0] in day then [Row(keys[0], day, now, shift)] else [])
      + Rows(keys[1..], day, now, shift)
  }

  /** The keys are listed in strictly increasing `prayerNames` order. */
  predicate KeysIncreasing(keys: seq<PrayerName>) {
    forall i, j :: 0 <= i < j < |keys| ==> keys[i].Ord() < keys[j].Ord()
  }

  /** The entries are listed in strictly increasing `prayerNames` order. */
  predicate EntriesIncreasing(s: seq<Prayer>) {
    forall i, j :: 0 <= i < j < |s| ==> s[i].key.Ord() < s[j].key.Ord()
  }

  /** Every entry of the filtered list is the row of a present key. */
  lemma {:induction false} RowsSound(keys: seq<PrayerName>, day: Day, now: int, shift: bool)
    ensures forall p :: p in Rows(keys, day, now, shift) ==>
      p.key in keys && p.key in day && p == Row(p.key, day, now, shift)
  {
    if |keys| > 0 {
      RowsSound(keys[1..], day, now, shift);
      forall p | p in Rows(keys[1..], day, now, shift) ensures p.key in keys {
        assert p.key in keys[1..];
      }
    }
  }

  /** Every present key has its row in the filtered list. */
  lemma {:induction false} RowsComplete(keys: seq<PrayerName>, day: Day, now: int, shift: bool)
    ensures forall k :: k in keys && k in day ==> Row(k, day, now, shift) in Rows(keys, day, now, shift)
  {
    if |keys| > 0 {
      RowsComplete(keys[1..], day, now, shift);
      forall k | k in keys && k in day
        ensures Row(k, day, now, shift) in Rows(keys, day, now, shift)
      {
        if k != keys[0] {
          assert k in keys[1..];
        }
      }
    }
  }

  /** The filtered list keeps the key order. */
  lemma {:induction false} RowsIncreasing(keys: seq<PrayerName>, day: Day, now: int, shift: bool)
    requires KeysIncreasing(keys)
    ensures EntriesIncreasing(Rows(keys, day, now, shift))
  {
    if |keys| > 0 {
      var rest := Rows(keys[1..], day, now, shift);
      assert KeysIncreasing(keys[1..]);
      RowsIncreasing(keys[1..], day, now, shift);
      if keys[0] in day {
        assert forall i :: 0 <= i < |keys[1..]| ==> keys[0].Ord() < keys[1..][i].Ord() by {
          forall i | 0 <= i < |keys[1..]| ensures keys[0].Ord() < keys[1..][i].Ord() {
            assert keys[1..][i] == keys[1 + i];
          }
        }
        RowsAbove(keys[1..], day, now, shift, keys[0].Ord());
        IncreasingCons(Row(keys[0], day, now, shift), rest);
      } else {
        assert Rows(keys, day, now, shift) == rest;
      }
    }
  }

  /** Keys all later than `o` give entries all later than `o`. */
  lemma {:induction false} RowsAbove(keys: seq<PrayerName>, day: Day, now: int, shift: bool, o: int)
    requires forall i :: 0 <= i < |keys| ==> o < keys[i].Ord()
    ensures forall e :: e in Rows(keys, day, now, shift) ==> o < e.key.Ord()
  {
    if |keys| > 0 {
      assert forall i :: 0 <= i < |keys[1..]| ==> o < keys[1..][i].Ord() by {
        forall i | 0 <= i < |keys[1..]| ensures o < keys[1..][i].Ord() {
          assert keys[1..][i] == keys[1 + i];
        }
      }
      RowsAbove(keys[1..], day, now, shift, o);
    }
  }

  lemma IncreasingCons(x: Prayer, rest: seq<Prayer>)
    requires EntriesIncreasing(rest)
    requires forall e :: e in rest ==> x.key.Ord() < e.key.Ord()
    ensures EntriesIncreasing([x] + rest)
  {
    var r := [x] + rest;
    forall i, j | 0 <= i < j < |r| ensures r[i].key.Ord() < r[j].key.Ord() {
      assert r[j] == rest[j - 1];
      if i > 0 {
        assert r[i] == rest[i - 1];
      }
    }
  }

  /** Entry `a` sorts before entry `b`: earlier, or at the same second and
      earlier in key order (the stable sort keeps key order among ties). */
  predicate LexBefore(a: Prayer, b: Prayer) {
    a.seconds < b.seconds || (a.seconds == b.seconds && a.key.Ord() < b.key.Ord())
  }

  /** The list is strictly increasing by seconds, then by key order. */
  predicate Ascending(s: seq<Prayer>) {
    forall i, j :: 0 <= i < j < |s| ==> LexBefore(s[i], s[j])
  }

  /** One step of the stable sort: `x` goes in front of the first entry
      that is not earlier than it. */
  function Insert(x: Prayer, t: seq<Prayer>): (r: seq<Prayer>)
    ensures multiset(r) == multiset([x] + t)
  {
    if |t| == 0 || x.seconds <= t[0].seconds then [x] + t
    else
      assert t == [t[0]] + t[1..];
      [t[0]] + Insert(x, t[1..])
  }

  /** `.sort((a, b) => a.seconds - b.seconds)`: the built-in sort is stable,
      so entries with equal seconds keep their relative order. */
  function SortBySeconds(s: seq<Prayer>): (r: seq<Prayer>)
    ensures multiset(r) == multiset(s)
  {
    if |s| == 0 then []
    else
      assert s == [s[0]] + s[1..];
      Insert(s[0], SortBySeconds(s[1..]))
  }

  lemma {:induction false} InsertAscending(x: Prayer, t: seq<Prayer>)
    requires Ascending(t)
    requires forall p :: p in t ==> x.key.Ord() < p.key.Ord()
    ensures Ascending(Insert(x, t))
  {
    if |t| == 0 || x.seconds <= t[0].seconds {
      var r := [x] + t;
      forall i, j | 0 <= i < j < |r| ensures LexBefore(r[i], r[j]) {
        if i == 0 {
          assert r[j] in t;
          assert j == 1 || LexBefore(t[0], r[j]);
        }
      }
    } else {
      InsertAscending(x, t[1..]);
      var u := Insert(x, t[1..]);
      var r := [t[0]] + u;
      assert r == Insert(x, t);
      forall i, j | 0 <= i < j < |r| ensures LexBefore(r[i], r[j]) {
        if i == 0 {
          assert r[j] in multiset(u);
          assert r[j] in multiset([x] + t[1..]);
          if r[j] != x {
            assert r[j] in t[1..];
          }
        }
      }
    }
  }

  /** Sorting a list given in key order yields it ascending by seconds with
      ties in key order: the stable sort is a permutation (its contract)
      that leaves equal-time prayers in `prayerNames` order. */
  lemma {:induction false} SortAscending(s: seq<Prayer>)
    requires EntriesIncreasing(s)
    ensures Ascending(SortBySeconds(s))
  {
    if |s| > 0 {
      assert EntriesIncreasing(s[1..]);
      SortAscending(s[1..]);
      var t := SortBySeconds(s[1..]);
      forall p | p in t ensures s[0].key.Ord() < p.key.Ord() {
        assert p in multiset(s[1..]);
        var m :| 0 <= m < |s[1..]| && s[1..][m] == p;
        assert s[1 + m] == p;
      }
      InsertAscending(s[0], t);
    }
  }

  /** The list of `getCurrentAndNextPrayer`: the present prayers in key
      order, past ones moved to tomorrow, sorted by seconds. */
  function Schedule(day: Day, now: int): seq<Prayer> {
    SortBySeconds(Rows(PrayerOrder, day, now, true))
  }

  /** Every entry of the list is the row of a present prayer. */
  predicate Sound(L: seq<Prayer>, day: Day, now: int, shift: bool) {
    forall i :: 0 <= i < |L| ==> L[i].key in day && L[i] == Row(L[i].key, day, now, shift)
  }

  /** Every present prayer has an entry in the list. */
  predicate Covers(L: seq<Prayer>, day: Day) {
    forall k :: k in day ==> exists i :: 0 <= i < |L| && L[i].key == k
  }

  /** No two entries share a key. */
  predicate DistinctKeys(L: seq<Prayer>) {
    forall i, j :: 0 <= i < j < |L| ==> L[i].key != L[j].key
  }

  /** The list holds exactly one row per present prayer. */
  predicate RowsOf(L: seq<Prayer>, day: Day, now: int, shift: bool) {
    Sound(L, day, now, shift) && Covers(L, day) && DistinctKeys(L)
  }

  /** The sorted list of the present rows holds one row per present prayer
      and is ascending by seconds, then key order. */
  lemma SortedRows(day: Day, now: int, shift: bool)
    ensures var L := SortBySeconds(Rows(PrayerOrder, day, now, shift));
      RowsOf(L, day, now, shift) && Ascending(L)
  {
    SortedRowsAscending(day, now, shift);
    SortedRowsSound(day, now, shift);
    SortedRowsComplete(day, now, shift);
    var L := SortBySeconds(Rows(PrayerOrder, day, now, shift));
    forall i, j | 0 <= i < j < |L| ensures L[i].key != L[j].key {
      assert LexBefore(L[i], L[j]);
      assert L[i] == Row(L[i].key, day, now, shift) && L[j] == Row(L[j].key, day, now, shift);
    }
  }

  lemma SortedRowsAscending(day: Day, now: int, shift: bool)
    ensures Ascending(SortBySeconds(Rows(PrayerOrder, day, now, shift)))
  {
    assert KeysIncreasing(PrayerOrder);
    RowsIncreasing(PrayerOrder, day, now, shift);
    SortAscending(Rows(PrayerOrder, day, now, shift));
  }

  lemma SortedRowsSound(day: Day, now: int, shift: bool)
    ensures Sound(SortBySeconds(Rows(PrayerOrder, day, now, shift)), day, now, shift)
  {
    var r := Rows(PrayerOrder, day, now, shift);
    var L := SortBySeconds(r);
    RowsSound(PrayerOrder, day, now, shift);
    forall i | 0 <= i < |L|
      ensures L[i].key in day && L[i] == Row(L[i].key, day, now, shift)
    {
      assert L[i] in multiset(r);
    }
  }

  lemma SortedRowsComplete(day: Day, now: int, shift: bool)
    ensures Covers(SortBySeconds(Rows(PrayerOrder, day, now, shift)), day)
  {
    var L := SortBySeconds(Rows(PrayerOrder, day, now, shift));
    forall k | k in day
      ensures exists i :: 0 <= i < |L| && L[i].key == k
    {
      SortedRowHas(day, now, shift, k);
      var i :| 0 <= i < |L| && L[i] == Row(k, day, now, shift);
    }
  }

  lemma SortedRowHas(day: Day, now: int, shift: bool, k: PrayerName)
    requires k in day
    ensures Row(k, day, now, shift) in SortBySeconds(Rows(PrayerOrder, day, now, shift))
  {
    var r := Rows(PrayerOrder, day, now, shift);
    assert k in PrayerOrder by { assert PrayerOrder[k.Ord()] == k; }
    RowsComplete(PrayerOrder, day, now, shift);
    assert Row(k, day, now, shift) in multiset(r);
  }

  /** `prayers.findIndex(p => p.seconds > now)`. */
  function FindFirstAfter(L: seq<Prayer>, now: int): (i: int)
    ensures -1 <= i < |L|
    ensures i == -1 ==> forall j :: 0 <= j < |L| ==> L[j].seconds <= now
    ensures 0 <= i ==> now < L[i].seconds && forall j :: 0 <= j < i ==> L[j].seconds <= now
  {
    if |L| == 0 then -1
    else if now < L[0].seconds then 0
    else
      var i := FindFirstAfter(L[1..], now);
      if i == -1 then -1 else i + 1
  }

  /** `currentPrayerIndex >= 0 ? prayers[currentPrayerIndex] : prayers[prayers.length - 1]`,
      where `currentPrayerIndex` is the found index minus one. */
  function CurrentIndex(L: seq<Prayer>, now: int): (c: int)
    requires 0 < |L|
    ensures 0 <= c < |L|
  {
    var ci := FindFirstAfter(L, now) - 1;
    if 0 <= ci then ci else |L| - 1
  }

  /** `prayers[(currentPrayerIndex + 1) % prayers.length] || prayers[0]`:
      an index that `%` leaves negative reads `undefined`, hence entry 0. */
  function NextIndex(L: seq<Prayer>, now: int): (x: int)
    requires 0 < |L|
    ensures 0 <= x < |L|
  {
    var ci := FindFirstAfter(L, now) - 1;
    var ni := JsRem(ci + 1, |L|);
    if 0 <= ni < |L| then ni else 0
  }

  /** `{ currentPrayer, nextPrayer, timeRemaining }`. */
  datatype Cursor = Cursor(current: Prayer, next: Prayer, remaining: int)

  /** The cursor over a non-empty list; the seconds remaining are clamped
      at zero. */
  function CursorOf(L: seq<Prayer>, now: int): (r: Cursor)
    requires 0 < |L|
    ensures r.current in L && r.next in L && 0 <= r.remaining
    ensures now <= r.next.seconds ==> r.remaining == r.next.seconds - now
  {
    var next := L[NextIndex(L, now)];
    var remaining := next.seconds - now;
    Cursor(L[CurrentIndex(L, now)], next, if remaining < 0 then 0 else remaining)
  }

  /** `getCurrentAndNextPrayer(prayerData, ..., now)`; the empty object
      `{}` is `None`. */
  function CurrentAndNext(data: Option<DayData>, now: int): (r: Option<Cursor>)
    requires data.Some? && data.value.timings.Some? ==> Readable(data.value.timings.value)
    ensures r.Some? <==> data.Some? && data.value.timings.Some?
                         && exists k :: Present(data.value.timings.value, k)
  {
    if data.None? || data.value.timings.None? then None
    else
      var timings := data.value.timings.value;
      var day := ReadDay(timings);
      var L := Schedule(day, now);
      assert |L| == 0 <==> forall k :: !Present(timings, k) by {
        ScheduleEmpty(day, now);
      }
      if |L| == 0 then None else Some(CursorOf(L, now))
  }

  /** The list is empty exactly when no prayer is present. */
  lemma ScheduleEmpty(day: Day, now: int)
    ensures |Schedule(day, now)| == 0 <==> forall k :: k !in day
  {
    var L := Schedule(day, now);
    SortedRows(day, now, true);
    assert Covers(L, day) && Sound(L, day, now, true);
    if 0 < |L| {
      assert L[0].key in day;
    }
  }

  // ---------------------------------------------------------------------
  // What the cursor means, stated on the day's readings alone

  /** Prayer `a` comes before prayer `b` in the day, ties in key order. */
  predicate KeyBefore(day: Day, a: PrayerName, b: PrayerName)
    requires a in day && b in day
  {
    day[a].raw < day[b].raw || (day[a].raw == day[b].raw && a.Ord() < b.Ord())
  }

  /** The prayer's time has come at `now`. */
  predicate Passed(day: Day, now: int, k: PrayerName) {
    k in day && day[k].raw <= now
  }

  /** The prayer's time is still ahead at `now`. */
  predicate Upcoming(day: Day, now: int, k: PrayerName) {
    k in day && now < day[k].raw
  }

  /** The prayer in effect: the latest one whose time has come or, before
      the day's first prayer, the latest of all, carried over from the
      previous day. */
  predicate IsCurrent(day: Day, now: int, c: PrayerName) {
    c in day &&
    if exists k :: Passed(day, now, k) then
      Passed(day, now, c)
      && forall k :: Passed(day, now, k) && k != c ==> KeyBefore(day, k, c)
    else
      forall k :: k in day && k != c ==> KeyBefore(day, k, c)
  }

  /** The prayer to come: the earliest one still ahead or, after the day's
      last prayer, the earliest of all, which comes round tomorrow. */
  predicate IsNext(day: Day, now: int, n: PrayerName) {
    n in day &&
    if exists k :: Upcoming(day, now, k) then
      Upcoming(day, now, n)
      && forall k :: Upcoming(day, now, k) && k != n ==> KeyBefore(day, n, k)
    else
      forall k :: k in day && k != n ==> KeyBefore(day, n, k)
  }

  /** At most one prayer is current. */
  lemma IsCurrentUnique(day: Day, now: int, a: PrayerName, b: PrayerName)
    requires IsCurrent(day, now, a) && IsCurrent(day, now, b)
    ensures a == b
  {
    assert a != b ==> KeyBefore(day, a, b) && KeyBefore(day, b, a);
  }

  /** At most one prayer is next. */
  lemma IsNextUnique(day: Day, now: int, a: PrayerName, b: PrayerName)
    requires IsNext(day, now, a) && IsNext(day, now, b)
    ensures a == b
  {
    assert a != b ==> KeyBefore(day, a, b) && KeyBefore(day, b, a);
  }

  // ---------------------------------------------------------------------
  // The cursor on the sorted list

  /** The list holds in-day times, past ones moved to tomorrow, sorted. */
  predicate Laid(L: seq<Prayer>, now: int) {
    && Ascending(L)
    && (forall i :: 0 <= i < |L| ==> 0 <= L[i].raw < SecondsPerDay && L[i].seconds == Shift(L[i].raw, now))
  }

  /** Entry `a` comes before entry `b` by clock time, ties in key order. */
  predicate RawBefore(a: Prayer, b: Prayer) {
    a.raw < b.raw || (a.raw == b.raw && a.key.Ord() < b.key.Ord())
  }

  /** Index `c` is the entry in effect, stated on clock times. */
  predicate CurrentAt(L: seq<Prayer>, now: int, c: int)
    requires 0 <= c < |L|
  {
    if exists i :: 0 <= i < |L| && L[i].raw <= now then
      L[c].raw <= now && forall i :: 0 <= i < |L| && i != c && L[i].raw <= now ==> RawBefore(L[i], L[c])
    else
      forall i :: 0 <= i < |L| && i != c ==> RawBefore(L[i], L[c])
  }

  /** Index `x` is the entry to come, stated on clock times. */
  predicate NextAt(L: seq<Prayer>, now: int, x: int)
    requires 0 <= x < |L|
  {
    if exists i :: 0 <= i < |L| && now < L[i].raw then
      now < L[x].raw && forall i :: 0 <= i < |L| && i != x && now < L[i].raw ==> RawBefore(L[x], L[i])
    else
      forall i :: 0 <= i < |L| && i != x ==> RawBefore(L[x], L[i])
  }

  /** Two entries on the same side of `now` compare alike by sort seconds
      and by clock time; an entry still to come sorts before a past one. */
  lemma ShiftCompare(a: Prayer, b: Prayer, now: int)
    requires 0 <= a.raw < SecondsPerDay && a.seconds == Shift(a.raw, now)
    requires 0 <= b.raw < SecondsPerDay && b.seconds == Shift(b.raw, now)
    ensures (a.raw < now <==> b.raw < now) ==> (LexBefore(a, b) <==> RawBefore(a, b))
    ensures now <= a.raw && b.raw < now ==> a.seconds < b.seconds
  {
  }

  /** When no entry lies after `now`, every time equals `now`. */
  lemma {:induction false} CursorWhenNoneAfter(L: seq<Prayer>, now: int)
    requires Laid(L, now) && 0 < |L| && 0 <= now < SecondsPerDay && FindFirstAfter(L, now) == -1
    ensures CurrentAt(L, now, |L| - 1) && NextAt(L, now, 0)
    ensures L[0].raw == now && L[0].seconds == now
  {
    var c := |L| - 1;
    forall i | 0 <= i < |L| ensures L[i].raw == now && L[i].seconds == now {
      assert L[i].seconds <= now;
    }
    forall i | 0 <= i < |L| && i != c ensures RawBefore(L[i], L[c]) {
      assert LexBefore(L[i], L[c]);
    }
    forall i | 0 <= i < |L| && i != 0 ensures RawBefore(L[0], L[i]) {
      assert LexBefore(L[0], L[i]);
    }
    assert L[c].raw <= now;
  }

  /** When even the first entry lies after `now`, no time equals `now` and
      the last entry is the one in effect. */
  lemma {:induction false} CurrentWhenFirstAfter(L: seq<Prayer>, now: int)
    requires Laid(L, now) && 0 < |L| && 0 <= now < SecondsPerDay && FindFirstAfter(L, now) == 0
    ensures CurrentAt(L, now, |L| - 1)
  {
    var c := |L| - 1;
    forall i | 0 <= i < |L| ensures now < L[i].seconds && L[i].raw != now {
      if i > 0 {
        assert LexBefore(L[0], L[i]);
      }
    }
    if exists i :: 0 <= i < |L| && L[i].raw <= now {
      var i :| 0 <= i < |L| && L[i].raw <= now;
      if i != c {
        assert LexBefore(L[i], L[c]);
      }
      assert L[c].raw < now;
      forall j | 0 <= j < |L| && j != c && L[j].raw <= now ensures RawBefore(L[j], L[c]) {
        assert LexBefore(L[j], L[c]);
        ShiftCompare(L[j], L[c], now);
      }
    } else {
      forall j | 0 <= j < |L| && j != c ensures RawBefore(L[j], L[c]) {
        assert LexBefore(L[j], L[c]);
        ShiftCompare(L[j], L[c], now);
      }
    }
  }

  /** When the first entry after `now` is not the first of the list, the
      entry before it is at exactly `now` and is the one in effect. */
  lemma {:induction false} CurrentWhenLaterAfter(L: seq<Prayer>, now: int)
    requires Laid(L, now) && 0 <= now < SecondsPerDay && 1 <= FindFirstAfter(L, now)
    ensures CurrentAt(L, now, FindFirstAfter(L, now) - 1)
  {
    var f := FindFirstAfter(L, now);
    var c := f - 1;
    assert L[c].seconds <= now;
    assert L[c].raw == now;
    AfterFirstAfter(L, now);
    forall j | 0 <= j < |L| && j != c && L[j].raw <= now ensures RawBefore(L[j], L[c]) {
      if L[j].raw == now {
        assert L[j].seconds == now;
        assert j < c;
        assert LexBefore(L[j], L[c]);
      }
    }
  }

  /** Every entry from the first one after `now` on lies after `now`. */
  lemma AfterFirstAfter(L: seq<Prayer>, now: int)
    requires Ascending(L) && 0 <= FindFirstAfter(L, now)
    ensures forall j :: FindFirstAfter(L, now) <= j < |L| ==> now < L[j].seconds
  {
    var f := FindFirstAfter(L, now);
    forall j | f < j < |L| ensures now < L[j].seconds {
      assert LexBefore(L[f], L[j]);
    }
  }

  /** The first entry after `now` is the one to come. */
  lemma {:induction false} NextWhenSomeAfter(L: seq<Prayer>, now: int)
    requires Laid(L, now) && 0 <= now < SecondsPerDay && 0 <= FindFirstAfter(L, now)
    ensures NextAt(L, now, FindFirstAfter(L, now))
  {
    var f := FindFirstAfter(L, now);
    assert L[f].raw != now;
    if exists i :: 0 <= i < |L| && now < L[i].raw {
      var i :| 0 <= i < |L| && now < L[i].raw;
      assert now < L[i].seconds;
      if i != f {
        assert f < i;
        assert LexBefore(L[f], L[i]);
      }
      assert now < L[f].raw;
      forall j | 0 <= j < |L| && j != f && now < L[j].raw ensures RawBefore(L[f], L[j]) {
        assert now < L[j].seconds;
        assert f < j;
        assert LexBefore(L[f], L[j]);
        ShiftCompare(L[f], L[j], now);
      }
    } else {
      forall j | 0 <= j < |L| && j != f ensures RawBefore(L[f], L[j]) {
        if L[j].raw < now {
          assert now < L[j].seconds;
          assert f < j;
          assert LexBefore(L[f], L[j]);
          ShiftCompare(L[f], L[j], now);
        }
      }
    }
  }

  /** The next index is the first entry after `now`, or entry 0 when there
      is none. */
  lemma NextIndexIsFirstAfter(L: seq<Prayer>, now: int)
    requires 0 < |L|
    ensures NextIndex(L, now) == if FindFirstAfter(L, now) == -1 then 0 else FindFirstAfter(L, now)
  {
    var f := FindFirstAfter(L, now);
    var n := |L|;
    if f == -1 {
      if 1 < n {
        assert JsRem(-1, n) == -1 by { JsRemMinusOne(n); }
      } else {
        assert JsRem(0, 1) == 0;
      }
    } else {
      assert JsRem(f, n) == f by { JsRemBelow(f, n); }
    }
  }

  /** On a laid-out list the cursor's indices are the entry in effect and
      the entry to come. */
  lemma CursorOnList(L: seq<Prayer>, now: int)
    requires Laid(L, now) && 0 < |L| && 0 <= now < SecondsPerDay
    ensures CurrentAt(L, now, CurrentIndex(L, now))
    ensures NextAt(L, now, NextIndex(L, now))
  {
    var f := FindFirstAfter(L, now);
    NextIndexIsFirstAfter(L, now);
    if f == -1 {
      CursorWhenNoneAfter(L, now);
    } else {
      if f == 0 {
        CurrentWhenFirstAfter(L, now);
      } else {
        CurrentWhenLaterAfter(L, now);
      }
      NextWhenSomeAfter(L, now);
    }
  }

  /** The seconds remaining are the clock distance from `now` to the next
      entry, wrapping over midnight. */
  lemma RemainingOnList(L: seq<Prayer>, now: int)
    requires Laid(L, now) && 0 < |L| && 0 <= now < SecondsPerDay
    ensures CursorOf(L, now).remaining == (L[NextIndex(L, now)].raw - now) % SecondsPerDay
  {
    var f := FindFirstAfter(L, now);
    NextIndexIsFirstAfter(L, now);
    if f == -1 {
      assert L[0].seconds <= now;
    }
  }

  // ---------------------------------------------------------------------
  // Back to the readings

  /** A list-level current entry names the current prayer. */
  lemma CurrentAtMeansIsCurrent(L: seq<Prayer>, day: Day, now: int, shift: bool, c: int)
    requires RowsOf(L, day, now, shift) && 0 <= c < |L|
    requires CurrentAt(L, now, c)
    ensures IsCurrent(day, now, L[c].key)
  {
    var ck := L[c].key;
    if exists k :: Passed(day, now, k) {
      var k :| Passed(day, now, k);
      var i :| 0 <= i < |L| && L[i].key == k;
      assert L[i].raw <= now;
      forall k' | Passed(day, now, k') && k' != ck ensures KeyBefore(day, k', ck) {
        var j :| 0 <= j < |L| && L[j].key == k';
        assert RawBefore(L[j], L[c]);
      }
    } else {
      assert forall i :: 0 <= i < |L| ==> !Passed(day, now, L[i].key);
      forall k' | k' in day && k' != ck ensures KeyBefore(day, k', ck) {
        var j :| 0 <= j < |L| && L[j].key == k';
        assert RawBefore(L[j], L[c]);
      }
    }
  }

  /** A list-level next entry names the next prayer. */
  lemma NextAtMeansIsNext(L: seq<Prayer>, day: Day, now: int, shift: bool, x: int)
    requires RowsOf(L, day, now, shift) && 0 <= x < |L|
    requires NextAt(L, now, x)
    ensures IsNext(day, now, L[x].key)
  {
    var xk := L[x].key;
    if exists k :: Upcoming(day, now, k) {
      var k :| Upcoming(day, now, k);
      var i :| 0 <= i < |L| && L[i].key == k;
      assert now < L[i].raw;
      forall k' | Upcoming(day, now, k') && k' != xk ensures KeyBefore(day, xk, k') {
        var j :| 0 <= j < |L| && L[j].key == k';
        assert RawBefore(L[x], L[j]);
      }
    } else {
      assert forall i :: 0 <= i < |L| ==> !Upcoming(day, now, L[i].key);
      forall k' | k' in day && k' != xk ensures KeyBefore(day, xk, k') {
        var j :| 0 <= j < |L| && L[j].key == k';
        assert RawBefore(L[x], L[j]);
      }
    }
  }

  /** The built list holds one shifted row per present prayer, sorted. */
  lemma ScheduleLaid(day: Day, now: int)
    requires WithinDay(day)
    ensures RowsOf(Schedule(day, now), day, now, true) && Laid(Schedule(day, now), now)
  {
    var L := Schedule(day, now);
    SortedRows(day, now, true);
    forall i | 0 <= i < |L| ensures 0 <= L[i].raw < SecondsPerDay && L[i].seconds == Shift(L[i].raw, now) {
      assert L[i] == Row(L[i].key, day, now, true);
    }
  }

  /** The cursor at a time of day: the current prayer is the latest one
      whose time has come (or, before the first, the latest of all); the
      next is the earliest still ahead (or, after the last, the earliest of
      all); the seconds remaining are the clock distance to the next prayer
      modulo a day, so always below 86400. Equal times are ordered by key. */
  lemma CursorMeaning(day: Day, now: int)
    requires WithinDay(day) && 0 <= now < SecondsPerDay && 0 < |Schedule(day, now)|
    ensures var c := CursorOf(Schedule(day, now), now);
      && IsCurrent(day, now, c.current.key)
      && IsNext(day, now, c.next.key)
      && CountsDown(day, now, c)
      && c.remaining < SecondsPerDay
  {
    CursorCurrent(day, now);
    CursorNext(day, now);
    CursorRemaining(day, now);
  }

  lemma CursorCurrent(day: Day, now: int)
    requires WithinDay(day) && 0 <= now < SecondsPerDay && 0 < |Schedule(day, now)|
    ensures IsCurrent(day, now, CursorOf(Schedule(day, now), now).current.key)
  {
    var L := Schedule(day, now);
    var c := CurrentIndex(L, now);
    assert RowsOf(L, day, now, true) && Laid(L, now) by { ScheduleLaid(day, now); }
    assert CurrentAt(L, now, c) by { CursorOnList(L, now); }
    CurrentAtMeansIsCurrent(L, day, now, true, c);
  }

  lemma CursorNext(day: Day, now: int)
    requires WithinDay(day) && 0 <= now < SecondsPerDay && 0 < |Schedule(day, now)|
    ensures IsNext(day, now, CursorOf(Schedule(day, now), now).next.key)
  {
    var L := Schedule(day, now);
    var x := NextIndex(L, now);
    assert RowsOf(L, day, now, true) && Laid(L, now) by { ScheduleLaid(day, now); }
    assert NextAt(L, now, x) by { CursorOnList(L, now); }
    NextAtMeansIsNext(L, day, now, true, x);
  }

  /** The cursor's seconds remaining are the clock distance from `now` to
      its next prayer, wrapping over midnight. */
  predicate CountsDown(day: Day, now: int, c: Cursor) {
    c.next.key in day && c.remaining == (day[c.next.key].raw - now) % SecondsPerDay
  }

  lemma CursorRemaining(day: Day, now: int)
    requires WithinDay(day) && 0 <= now < SecondsPerDay && 0 < |Schedule(day, now)|
    ensures CountsDown(day, now, CursorOf(Schedule(day, now), now))
  {
    var L := Schedule(day, now);
    assert Sound(L, day, now, true) && Laid(L, now) by { ScheduleLaid(day, now); }
    RemainingOnDay(L, day, now);
  }

  lemma RemainingOnDay(L: seq<Prayer>, day: Day, now: int)
    requires Sound(L, day, now, true) && Laid(L, now) && 0 < |L| && 0 <= now < SecondsPerDay
    ensures CountsDown(day, now, CursorOf(L, now))
  {
    var x := NextIndex(L, now);
    var d: int := L[x].raw - now;
    assert CursorOf(L, now).remaining == d % SecondsPerDay by {
      RemainingOnList(L, now);
    }
    assert L[x].key in day && day[L[x].key].raw == L[x].raw;
  }

  /** `getCurrentAndNextPrayer` on a day whose timings are clock texts
      within one day: whenever it answers, it answers with the current
      prayer, the next prayer and the clock distance to it. */
  lemma CurrentAndNextMeaning(data: DayData, timings: map<PrayerName, string>, now: int)
    requires data.timings == Some(timings) && Readable(timings) && WithinDay(ReadDay(timings))
    requires 0 <= now < SecondsPerDay
    ensures var r := CurrentAndNext(Some(data), now);
      r.Some? ==> Answers(ReadDay(timings), now, r.value)
  {
    var day := ReadDay(timings);
    var L := Schedule(day, now);
    if 0 < |L| {
      assert CurrentAndNext(Some(data), now) == Some(CursorOf(L, now));
      CursorAnswers(day, now);
    } else {
      assert CurrentAndNext(Some(data), now) == None;
    }
  }

  /** The answer names the current prayer, the next prayer and a clock
      distance within a day. */
  predicate Answers(day: Day, now: int, c: Cursor) {
    && IsCurrent(day, now, c.current.key)
    && IsNext(day, now, c.next.key)
    && 0 <= c.remaining < SecondsPerDay
  }

  lemma CursorAnswers(day: Day, now: int)
    requires WithinDay(day) && 0 <= now < SecondsPerDay && 0 < |Schedule(day, now)|
    ensures Answers(day, now, CursorOf(Schedule(day, now), now))
  {
    CursorMeaning(day, now);
  }
}
