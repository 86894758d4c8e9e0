/** The Ramadan page of src/renderer/js/ramadanUI.js: the Hijri year whose
    Ramadan is shown, the fasting tracker, the day flags of the tracker
    grid, and the card for today. */
module RamadanUI {
  import opened Wrappers
  import opened Strings
  import HijriCalendar

  /** The year of the Ramadan to show: `parseInt(hijri.year)`, plus one
      once the current month is past Ramadan; `None` for NaN. */
  function TargetHijriYear(year: string, month: int): (r: Option<int>)
    ensures r.None? <==> ParseInt(year).None?
    ensures r.Some? && month > 9 ==> r.value == ParseInt(year).value + 1
    ensures r.Some? && month <= 9 ==> r.value == ParseInt(year).value
  {
    match ParseInt(year)
    case None => None
    case Some(y) => Some(if month > 9 then y + 1 else y)
  }

  /** The chosen Ramadan is the first one from the current month on: it
      is not in the past and less than a year ahead. */
  lemma TargetIsNextRamadan(year: string, month: int)
    requires ParseInt(year).Some? && 1 <= month <= 12
    ensures var now := HijriCalendar.MonthIndex(month, ParseInt(year).value);
      var ramadan := HijriCalendar.MonthIndex(9, TargetHijriYear(year, month).value);
      now <= ramadan < now + 12
  {
  }

  // ---------------------------------------------------------------------
  // The fasting tracker

  /** `toggleDayTracking(hijriDay)` on the saved list: a tracked day is
      removed, every copy of it; an untracked one is appended. */
  function ToggleDay(tracked: seq<string>, day: string): (r: seq<string>)
    ensures day in r <==> day !in tracked
    ensures forall d :: d != day ==> (d in r <==> d in tracked)
    ensures day !in tracked ==> r == tracked + [day]
  {
    if day in tracked then Without(tracked, day) else tracked + [day]
  }

  /** `.filter(d => d !== day)`. */
  function Without(s: seq<string>, day: string): (r: seq<string>)
    ensures day !in r
    ensures forall d :: d != day ==> (d in r <==> d in s)
    ensures day !in s ==> r == s
  {
    if |s| == 0 then []
    else if s[0] == day then Without(s[1..], day)
    else
      assert s == [s[0]] + s[1..];
      [s[0]] + Without(s[1..], day)
  }

  /** Two presses on the same day restore whether every day is tracked;
      from an untracked day they restore the list itself. */
  lemma ToggleDayTwice(tracked: seq<string>, day: string)
    ensures forall d :: d in ToggleDay(ToggleDay(tracked, day), day) <==> d in tracked
    ensures day !in tracked ==> ToggleDay(ToggleDay(tracked, day), day) == tracked
  {
    if day !in tracked {
      assert Without(tracked + [day], day) == tracked by {
        WithoutAppended(tracked, day);
      }
    }
  }

  /** The filter works piece by piece: it keeps the order and the
      repetitions of the other days. */
  lemma {:induction false} WithoutAppend(a: seq<string>, b: seq<string>, day: string)
    ensures Without(a + b, day) == Without(a, day) + Without(b, day)
    decreases |a|
  {
    if |a| == 0 {
      assert a + b == b;
    } else {
      assert (a + b)[1..] == a[1..] + b;
      WithoutAppend(a[1..], b, day);
    }
  }

  /** On one day: dropped when it is the removed day, kept otherwise. */
  lemma WithoutOne(d: string, day: string)
    ensures Without([d], day) == if d == day then [] else [d]
  {
  }

  lemma {:induction false} WithoutAppended(s: seq<string>, day: string)
    requires day !in s
    ensures Without(s + [day], day) == s
  {
    if |s| > 0 {
      assert (s + [day])[1..] == s[1..] + [day];
      WithoutAppended(s[1..], day);
    }
  }

  /** The flags of a day in the tracker grid: the 15th is marked special,
      the 27th Laylat al-Qadr (both through `parseInt`), and a day is
      done when its text is in the tracked list. */
  datatype DayFlags = DayFlags(special: bool, laylatAlQadr: bool, completed: bool)

  function Flags(hijriDay: string, tracked: seq<string>): (f: DayFlags)
    ensures f.special <==> ParseInt(hijriDay) == Some(15)
    ensures f.laylatAlQadr <==> ParseInt(hijriDay) == Some(27)
    ensures f.completed <==> hijriDay in tracked
  {
    DayFlags(ParseInt(hijriDay) == Some(15), ParseInt(hijriDay) == Some(27), hijriDay in tracked)
  }

  /** The day the server writes as `d` carries the flag of its number; no
      day has both marks, and pressing the day's button flips its done
      mark alone. */
  lemma FlagsOfDay(d: int, tracked: seq<string>)
    ensures var f := Flags(IntToString(d), tracked);
      && (f.special <==> d == 15) && (f.laylatAlQadr <==> d == 27)
      && !(f.special && f.laylatAlQadr)
      && Flags(IntToString(d), ToggleDay(tracked, IntToString(d))).completed == !f.completed
  {
    ParseIntOfIntToString(d, true);
  }

  // ---------------------------------------------------------------------
  // Today

  /** `${dd}-${mm}-${yyyy}` with the day and month padded to two digits. */
  function TodayKey(day: nat, month: nat, year: int): string {
    Pad2(day) + "-" + Pad2(month) + "-" + IntToString(year)
  }

  lemma NoDashInPad2(n: nat)
    ensures '-' !in Pad2(n)
  {
    var s := NatToString(n);
    var pad := Fill('0', if |s| < 2 then 2 - |s| else 0);
    assert Pad2(n) == pad + s;
    NonDigitAbsent(s, '-', false);
    assert '-' !in pad;
  }

  /** For a year of the common era, the key splits back on '-' into the
      padded day, the padded month and the year. */
  lemma TodayKeyParts(day: nat, month: nat, year: nat)
    ensures Split(TodayKey(day, month, year), '-') == [Pad2(day), Pad2(month), NatToString(year)]
  {
    var a, b, c := Pad2(day), Pad2(month), NatToString(year);
    NoDashInPad2(day);
    NoDashInPad2(month);
    NonDigitAbsent(c, '-', false);
    SplitTriple(a, b, c, '-');
    assert TodayKey(day, month, year) == a + ['-'] + b + ['-'] + c;
  }

  /** A day of the Ramadan calendar as the page reads it. */
  datatype RamadanDay = RamadanDay(hijriDay: string, gregorianDate: string, fajr: string, maghrib: string)

  /** `data.find(item => item.date.gregorian.date === todayStr)`: the
      position of the first match. */
  function FindDay(data: seq<RamadanDay>, today: string): (r: Option<nat>)
    ensures r.None? <==> forall i :: 0 <= i < |data| ==> data[i].gregorianDate != today
    ensures r.Some? ==> r.value < |data| && data[r.value].gregorianDate == today
                        && forall j :: 0 <= j < r.value ==> data[j].gregorianDate != today
  {
    if |data| == 0 then None
    else if data[0].gregorianDate == today then Some(0)
    else
      match FindDay(data[1..], today)
      case Some(i) =>
        assert forall j :: 1 <= j < i + 1 ==> data[j] == data[1..][j - 1];
        Some(i + 1)
      case None =>
        assert forall j :: 1 <= j < |data| ==> data[j] == data[1..][j - 1];
        None
  }

  /** `formatTimeStr(time)`: the text before the first space, which drops a
      zone suffix such as " (EST)". */
  function FormatTimeStr(time: string): (r: string)
    ensures ' ' !in r
    ensures StartsWith(time, r)
    ensures ' ' !in time ==> r == time
    ensures ' ' in time ==> r == time[..IndexOf(time, ' ')]
  {
    var parts := Split(time, ' ');
    if ' ' in time then
      var i := IndexOf(time, ' ');
      assert parts[0] == time[..i] by {
        assert time == time[..i] + [' '] + time[i + 1..];
        SplitConcat(time[..i], time[i + 1..], ' ');
      }
      parts[0]
    else
      SplitNoSeparator(time, ' ');
      parts[0]
  }

  /** Formatting twice is formatting once. */
  lemma FormatTimeStrIdempotent(time: string)
    ensures FormatTimeStr(FormatTimeStr(time)) == FormatTimeStr(time)
  {
  }

  /** The card for today: found in the month, Ramadan still ahead (the
      first day's times are shown), Ramadan over, or no data. */
  datatype TodayCard = InRamadan(suhoor: string, iftar: string, hijriDay: string)
                     | BeforeRamadan(suhoor: string, iftar: string)
                     | RamadanEnded
                     | NoData

  /** `updateTodayCard(data)`; `beforeStart` is the comparison of today's
      date with the first day's, which is not modelled. */
  function TodayCardOf(data: seq<RamadanDay>, today: string, beforeStart: bool): (c: TodayCard)
    ensures c.InRamadan? <==> exists i :: 0 <= i < |data| && data[i].gregorianDate == today
    ensures c.InRamadan? ==> exists i :: 0 <= i < |data| && data[i].gregorianDate == today
                               && c == InRamadan(FormatTimeStr(data[i].fajr), FormatTimeStr(data[i].maghrib), data[i].hijriDay)
    ensures FindDay(data, today).Some? ==>
              var i := FindDay(data, today).value;
              c == InRamadan(FormatTimeStr(data[i].fajr), FormatTimeStr(data[i].maghrib), data[i].hijriDay)
    ensures c.BeforeRamadan? ==> 0 < |data| && beforeStart
                                 && c == BeforeRamadan(FormatTimeStr(data[0].fajr), FormatTimeStr(data[0].maghrib))
    ensures c == NoData <==> |data| == 0
    ensures 0 < |data| && (forall i :: 0 <= i < |data| ==> data[i].gregorianDate != today) ==>
              c == (if beforeStart then BeforeRamadan(FormatTimeStr(data[0].fajr), FormatTimeStr(data[0].maghrib))
                    else RamadanEnded)
  {
    match FindDay(data, today)
    case Some(i) => InRamadan(FormatTimeStr(data[i].fajr), FormatTimeStr(data[i].maghrib), data[i].hijriDay)
    case None =>
      if |data| == 0 then NoData
      else if beforeStart then BeforeRamadan(FormatTimeStr(data[0].fajr), FormatTimeStr(data[0].maghrib))
      else RamadanEnded
  }
}
