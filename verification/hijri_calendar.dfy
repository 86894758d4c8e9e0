/** The Hijri calendar page of src/renderer/js/hijriCalendar.js: month
    navigation with year rollover, the cache of generated months, the grid
    of a month, and the list of the month's Islamic occasions. */
module HijriCalendar {
  import opened Wrappers
  import opened Strings

  // ---------------------------------------------------------------------
  // Keys of the form `${a}-${b}`

  /** The template literal `${a}-${b}` on two integers: the cache key
      `month-year` and the occasion key `month-day`. */
  function DashKey(a: int, b: int): string {
    IntToString(a) + "-" + IntToString(b)
  }

  /** `indexOf` finds the first occurrence, so an occurrence with none
      before it is the one found. */
  lemma IndexOfAt(s: string, c: char, j: int)
    requires 0 <= j < |s| && s[j] == c && c !in s[..j]
    ensures IndexOf(s, c) == j
  {
    var i := IndexOf(s, c);
    assert forall k :: 0 <= k < j ==> s[..j][k] == s[k];
    assert 0 <= i ==> forall k :: 0 <= k < i ==> s[..i][k] == s[k];
  }

  lemma NoDashInDigits(n: nat)
    ensures '-' !in NatToString(n)
    ensures IsDigit(NatToString(n)[0])
  {
    NonDigitAbsent(NatToString(n), '-', false);
    AllRadixDigitsIff(NatToString(n), false);
  }

  /** Text without a dash, a dash, then anything: the dash-free head and
      the tail are determined by the whole. */
  lemma HeadThenDash(a: string, y: string, c: string, w: string)
    requires '-' !in a && '-' !in c && a + "-" + y == c + "-" + w
    ensures a == c && y == w
  {
    var k := a + "-" + y;
    assert k[..|a|] == a && k[|a|] == '-';
    assert k == c + "-" + w;
    assert k[..|c|] == c && k[|c|] == '-';
    IndexOfAt(k, '-', |a|);
    IndexOfAt(k, '-', |c|);
    assert y == k[|a| + 1..];
  }

  /** A dash-free head followed by a dash starts with another such head
      and a dash only when the two heads are the same. */
  lemma HeadPrefix(a: string, y: string, c: string)
    requires '-' !in a && '-' !in c && StartsWith(a + "-" + y, c + "-")
    ensures a == c
  {
    var k := a + "-" + y;
    var p := c + "-";
    assert k[..|a|] == a && k[|a|] == '-';
    assert k[..|p|] == p;
    assert k[..|c|] == c && k[|c|] == '-';
    IndexOfAt(k, '-', |a|);
    IndexOfAt(k, '-', |c|);
  }

  /** Two keys built from digit runs agree only when both runs and both
      tails agree. */
  lemma DigitsThenDash(n: nat, y: string, m: nat, w: string)
    requires NatToString(n) + "-" + y == NatToString(m) + "-" + w
    ensures n == m && y == w
  {
    NoDashInDigits(n);
    NoDashInDigits(m);
    HeadThenDash(NatToString(n), y, NatToString(m), w);
    NatToStringInjective(n, m);
  }

  lemma IntToStringInjective(b: int, d: int)
    requires IntToString(b) == IntToString(d)
    ensures b == d
  {
    ParseIntOfIntToString(b, false);
    ParseIntOfIntToString(d, false);
  }

  /** Distinct pairs of integers give distinct keys. */
  lemma DashKeyInjective(a: int, b: int, c: int, d: int)
    ensures DashKey(a, b) == DashKey(c, d) <==> a == c && b == d
  {
    if (a < 0) != (c < 0) {
      assert DashKey(a, b)[0] != DashKey(c, d)[0] by {
        NoDashInDigits(if a < 0 then -a else a);
        NoDashInDigits(if c < 0 then -c else c);
      }
    } else if DashKey(a, b) == DashKey(c, d) {
      SameSignKeys(a, b, c, d);
    }
  }

  lemma SameSignKeys(a: int, b: int, c: int, d: int)
    requires (a < 0) == (c < 0) && DashKey(a, b) == DashKey(c, d)
    ensures a == c && b == d
  {
    var na: nat := if a < 0 then -a else a;
    var nc: nat := if c < 0 then -c else c;
    var y, w := IntToString(b), IntToString(d);
    DashKeyShape(a, b);
    DashKeyShape(c, d);
    if a < 0 {
      SameAfterDash(NatToString(na) + "-" + y, NatToString(nc) + "-" + w);
    }
    DigitsThenDash(na, y, nc, w);
    IntToStringInjective(b, d);
  }

  lemma DashKeyShape(a: int, b: int)
    ensures 0 <= a ==> DashKey(a, b) == NatToString(a) + "-" + IntToString(b)
    ensures a < 0 ==> DashKey(a, b) == "-" + (NatToString(-a) + "-" + IntToString(b))
  {
  }

  lemma SameAfterDash(x: string, z: string)
    requires "-" + x == "-" + z
    ensures x == z
  {
    assert x == ("-" + x)[1..];
  }

  /** The prefix test of `renderIslamicEvents`: a key whose first number
      is a natural starts with `${month}-` exactly when that number is the
      month. */
  lemma DashKeyPrefix(m': nat, d: int, month: int)
    ensures StartsWith(DashKey(m', d), IntToString(month) + "-") <==> m' == month
  {
    var k := DashKey(m', d);
    var p := IntToString(month) + "-";
    KeyStartsWithFirst(m', d);
    if 0 <= month && StartsWith(k, p) {
      PrefixSameFirst(m', d, month);
    } else if month < 0 {
      NoDashInDigits(m');
      assert p[0] != k[0];
    }
  }

  lemma KeyStartsWithFirst(a: int, b: int)
    ensures StartsWith(DashKey(a, b), IntToString(a) + "-")
  {
    var p := IntToString(a) + "-";
    assert DashKey(a, b) == p + IntToString(b);
    assert DashKey(a, b)[..|p|] == p;
  }

  lemma PrefixSameFirst(m': nat, d: int, month: nat)
    requires StartsWith(DashKey(m', d), NatToString(month) + "-")
    ensures m' == month
  {
    NoDashInDigits(m');
    NoDashInDigits(month);
    HeadPrefix(NatToString(m'), IntToString(d), NatToString(month));
    NatToStringInjective(m', month);
  }

  // ---------------------------------------------------------------------
  // navigateMonth

  /** The months counted from the start of year 0: the order navigation
      walks. */
  function MonthIndex(month: int, year: int): int {
    year * 12 + month - 1
  }

  /** `navigateMonth(direction)` on (`currentHijriMonth`,
      `currentHijriYear`): past 12 the month becomes 1 of the next year,
      below 1 it becomes 12 of the previous year. */
  function NavigateMonth(month: int, year: int, direction: int): (r: (int, int))
    ensures 1 <= r.0 <= 12
    ensures 1 <= month + direction <= 12 ==> r == (month + direction, year)
  {
    var m := month + direction;
    if m > 12 then (1, year + 1)
    else if m < 1 then (12, year - 1)
    else (m, year)
  }

  /** The buttons' steps of one month move exactly one month along the
      calendar, whatever the year. */
  lemma NavigateStep(month: int, year: int, direction: int)
    requires 1 <= month <= 12 && (direction == 1 || direction == -1)
    ensures var r := NavigateMonth(month, year, direction);
      MonthIndex(r.0, r.1) == MonthIndex(month, year) + direction
  {
  }

  /** A month forward and a month back (or back then forward) returns to
      the displayed month and year. */
  lemma NavigateRoundTrip(month: int, year: int)
    requires 1 <= month <= 12
    ensures var f := NavigateMonth(month, year, 1); NavigateMonth(f.0, f.1, -1) == (month, year)
    ensures var b := NavigateMonth(month, year, -1); NavigateMonth(b.0, b.1, 1) == (month, year)
  {
  }

  // ---------------------------------------------------------------------
  // The month's name

  const MonthsEn: seq<string> := ["Muharram", "Safar", "Rabi al-Awwal", "Rabi al-Thani", "Jumada al-Awwal",
    "Jumada al-Thani", "Rajab", "Shaban", "Ramadan", "Shawwal", "Dhul-Qadah", "Dhul-Hijjah"]
  const MonthsAr: seq<string> := ["محرم", "صفر", "ربيع الأول", "ربيع الثاني", "جمادى الأولى",
    "جمادى الثانية", "رجب", "شعبان", "رمضان", "شوال", "ذو القعدة", "ذو الحجة"]
  const MonthsFr: seq<string> := ["Mouharram", "Safar", "Rabia al-Awal", "Rabia ath-Thani", "Joumada al-Oula",
    "Joumada ath-Thania", "Rajab", "Chaabane", "Ramadan", "Chawwal", "Dhou al-Qiada", "Dhou al-Hijja"]

  /** `HIJRI_MONTHS[lang]`: a table for English, Arabic and French. */
  function MonthTable(lang: string): (r: Option<seq<string>>)
    ensures r.Some? <==> lang == "en" || lang == "ar" || lang == "fr"
    ensures r.Some? ==> |r.value| == 12
  {
    if lang == "en" then Some(MonthsEn)
    else if lang == "ar" then Some(MonthsAr)
    else if lang == "fr" then Some(MonthsFr)
    else None
  }

  /** `localStorage.getItem('language') || 'en'`. */
  function PageLanguage(saved: Option<string>): (lang: string)
    ensures saved.Some? && saved.value != "" ==> lang == saved.value
    ensures saved.None? || saved.value == "" ==> lang == "en"
  {
    if saved.Some? && saved.value != "" then saved.value else "en"
  }

  /** The month name `renderCalendar` shows: from the language's table,
      else from the English one; `None` (`undefined`) for a month outside
      1..12. */
  function MonthLabel(lang: string, month: int): (r: Option<string>)
    ensures r.Some? <==> 1 <= month <= 12
    ensures r.Some? && MonthTable(lang).Some? ==> r.value == MonthTable(lang).value[month - 1]
  {
    var names := MonthTable(lang).GetOr(MonthsEn);
    if 1 <= month <= 12 then Some(names[month - 1]) else None
  }

  /** A language without a table shows the English names. */
  lemma MonthLabelFallback(lang: string, month: int)
    requires lang != "en" && lang != "ar" && lang != "fr"
    ensures MonthLabel(lang, month) == MonthLabel("en", month)
    ensures 1 <= month <= 12 ==> MonthLabel(lang, month) == Some(MonthsEn[month - 1])
  {
  }

  // ---------------------------------------------------------------------
  // The cache of generated months

  /** A Gregorian date as `getHijriMonthData` records it. */
  datatype GregorianDay = GregorianDay(day: int, month: int, year: int)

  /** An entry of `monthData.days`. */
  datatype CalendarDay = CalendarDay(hijriDay: int, gregorian: GregorianDay)

  /** `{ firstDayWeekday, days }`. */
  datatype MonthData = MonthData(firstDayWeekday: int, days: seq<CalendarDay>)

  /** The `hToG` answer for the first of the month: a thrown fetch, or the
      reply's `code` and the weekday of the Gregorian first day. */
  datatype FirstDayReply = Thrown | Replied(code: int, weekday: int)

  /** A generated month has thirty days numbered 1 to 30 in order, each
      with the Gregorian date `dateOf` gives for it. */
  predicate Generated(data: MonthData, weekday: int, dateOf: int -> GregorianDay) {
    && data.firstDayWeekday == weekday
    && |data.days| == 30
    && forall i :: 0 <= i < 30 ==> data.days[i] == CalendarDay(i + 1, dateOf(i + 1))
  }

  /** The loop `for (let day = 1; day <= 30; day++)`; `dateOf(d)` is the
      Gregorian date `d - 1` days after the first of the month. */
  function GenerateMonth(weekday: int, dateOf: int -> GregorianDay): (data: MonthData)
    ensures Generated(data, weekday, dateOf)
  {
    MonthData(weekday, seq(30, i => CalendarDay(i + 1, dateOf(i + 1))))
  }

  type Cache = map<string, MonthData>

  /** `getHijriMonthData()`: the new cache and the returned month (`None`
      for `null`). A cached month is returned without a fetch; otherwise a
      reply with code 200 generates the month and stores it, and a
      failed or thrown fetch returns `null` and stores nothing. */
  function GetMonthData(cache: Cache, month: int, year: int, reply: FirstDayReply,
                        dateOf: int -> GregorianDay): (r: (Cache, Option<MonthData>))
    ensures DashKey(month, year) in cache ==> r == (cache, Some(cache[DashKey(month, year)]))
    ensures DashKey(month, year) !in cache && reply.Replied? && reply.code == 200 ==>
              r.1.Some? && Generated(r.1.value, reply.weekday, dateOf)
              && r.0 == cache[DashKey(month, year) := r.1.value]
    ensures DashKey(month, year) !in cache && (reply.Thrown? || reply.code != 200) ==> r == (cache, None)
  {
    var key := DashKey(month, year);
    if key in cache then (cache, Some(cache[key]))
    else if reply.Thrown? || reply.code != 200 then (cache, None)
    else
      var data := GenerateMonth(reply.weekday, dateOf);
      (cache[key := data], Some(data))
  }

  /** Whatever the server answers later, a month once loaded is served
      from the cache unchanged: the second call neither fetches nor
      changes anything. */
  lemma LoadedOnce(cache: Cache, month: int, year: int, reply: FirstDayReply, later: FirstDayReply,
                   dateOf: int -> GregorianDay, laterDateOf: int -> GregorianDay)
    requires GetMonthData(cache, month, year, reply, dateOf).1.Some?
    ensures var (c1, d1) := GetMonthData(cache, month, year, reply, dateOf);
      GetMonthData(c1, month, year, later, laterDateOf) == (c1, d1)
  {
  }

  /** Loading one month leaves the cache entry of every other month as it
      was. */
  lemma OtherMonthsKept(cache: Cache, month: int, year: int, reply: FirstDayReply,
                        dateOf: int -> GregorianDay, month': int, year': int)
    requires (month', year') != (month, year)
    ensures var c1 := GetMonthData(cache, month, year, reply, dateOf).0;
      && (DashKey(month', year') in c1 <==> DashKey(month', year') in cache)
      && (DashKey(month', year') in cache ==> c1[DashKey(month', year')] == cache[DashKey(month', year')])
  {
    DashKeyInjective(month, year, month', year');
  }

  // ---------------------------------------------------------------------
  // The occasions

  /** An entry of `ISLAMIC_EVENTS`, its key `month-day` held as numbers;
      its names are the entry at the same position of `OccasionNames`. */
  datatype Occasion = Occasion(month: nat, day: nat) {
    function Key(): string { DashKey(month, day) }
  }

  const IslamicEvents: seq<Occasion> := [
    Occasion(1, 1), Occasion(1, 10), Occasion(3, 12), Occasion(7, 27), Occasion(8, 15),
    Occasion(9, 1), Occasion(9, 27), Occasion(10, 1), Occasion(12, 9), Occasion(12, 10)]

  /** An occasion's names in the three languages. */
  datatype EventNames = EventNames(en: string, ar: string, fr: string)

  const OccasionNames: seq<EventNames> := [
    EventNames("Islamic New Year", "رأس السنة الهجرية", "Nouvel An Islamique"),
    EventNames("Day of Ashura", "عاشوراء", "Jour d'Achoura"),
    EventNames("Mawlid al-Nabi", "المولد النبوي", "Mawlid (Naissance du Prophète)"),
    EventNames("Isra and Miraj", "الإسراء والمعراج", "Isra et Miraj"),
    EventNames("Mid-Shaban", "ليلة النصف من شعبان", "Mi-Chaabane"),
    EventNames("First Day of Ramadan", "أول رمضان", "Premier Jour de Ramadan"),
    EventNames("Laylat al-Qadr", "ليلة القدر", "Nuit du Destin"),
    EventNames("Eid al-Fitr", "عيد الفطر", "Aïd al-Fitr"),
    EventNames("Day of Arafah", "يوم عرفة", "Jour d'Arafat"),
    EventNames("Eid al-Adha", "عيد الأضحى", "Aïd al-Adha")]

  /** `events[key]`: the position of the entry stored under the key, `None`
      (`undefined`) when there is none. */
  function EventAt(events: seq<Occasion>, key: string): (r: Option<nat>)
    ensures r.Some? ==> r.value < |events| && events[r.value].Key() == key
    ensures r.None? ==> forall i :: 0 <= i < |events| ==> events[i].Key() != key
  {
    if |events| == 0 then None
    else if events[0].Key() == key then Some(0)
    else
      match EventAt(events[1..], key)
      case Some(i) =>
        assert events[i + 1] == events[1..][i];
        Some(i + 1)
      case None =>
        assert forall i :: 0 < i < |events| ==> events[i] == events[1..][i - 1];
        None
  }

  /** Some entry falls on that month and day. */
  predicate HasOccasion(events: seq<Occasion>, month: int, day: int) {
    exists i :: 0 <= i < |events| && events[i].month == month && events[i].day == day
  }

  /** The lookup by the string key `${month}-${hijriDay}` finds an entry
      exactly when some entry has that month and day. */
  lemma {:induction false} EventAtNumbers(events: seq<Occasion>, month: int, day: int)
    ensures EventAt(events, DashKey(month, day)).Some? <==> HasOccasion(events, month, day)
  {
    if |events| > 0 {
      DashKeyInjective(events[0].month, events[0].day, month, day);
      EventAtNumbers(events[1..], month, day);
      if exists i :: 0 <= i < |events| && events[i].month == month && events[i].day == day {
        var i :| 0 <= i < |events| && events[i].month == month && events[i].day == day;
        if i > 0 {
          assert events[1..][i - 1] == events[i];
        }
      } else {
        forall i | 0 <= i < |events[1..]| ensures !(events[1..][i].month == month && events[1..][i].day == day) {
          assert events[1..][i] == events[i + 1];
        }
      }
    }
  }

  /** `if (ISLAMIC_EVENTS[eventKey])`: the day carries the special mark. */
  predicate Special(month: int, hijriDay: int) {
    EventAt(IslamicEvents, DashKey(month, hijriDay)).Some?
  }

  /** In Ramadan only the 1st and the 27th are marked. */
  lemma RamadanSpecialDays(hijriDay: int)
    ensures Special(9, hijriDay) <==> hijriDay == 1 || hijriDay == 27
  {
    EventAtNumbers(IslamicEvents, 9, hijriDay);
    if hijriDay == 1 {
      assert IslamicEvents[5].month == 9 && IslamicEvents[5].day == 1;
    } else if hijriDay == 27 {
      assert IslamicEvents[6].month == 9 && IslamicEvents[6].day == 27;
    } else if HasOccasion(IslamicEvents, 9, hijriDay) {
      var i :| 0 <= i < |IslamicEvents| && IslamicEvents[i].month == 9 && IslamicEvents[i].day == hijriDay;
      RamadanEntries(i);
      assert false;
    }
  }

  /** The entries in Ramadan are the 6th and the 7th. */
  lemma RamadanEntries(i: int)
    requires 0 <= i < |IslamicEvents| && IslamicEvents[i].month == 9
    ensures i == 5 || i == 6
  {
  }

  // ---------------------------------------------------------------------
  // The grid

  /** A cell of the grid: an empty cell before the first day, or a day with
      its Hijri number, its Gregorian day and the special mark. */
  datatype Cell = Blank | DayCell(hijriDay: int, gregorianDay: int, special: bool)

  /** The number of empty cells: the loop `i < firstDayWeekday` runs no
      time for a weekday below 1. */
  function BlankCount(weekday: int): nat {
    if weekday < 0 then 0 else weekday
  }

  function DayCells(month: int, days: seq<CalendarDay>): (cells: seq<Cell>)
    ensures |cells| == |days|
    ensures forall k :: 0 <= k < |days| ==>
      cells[k] == DayCell(days[k].hijriDay, days[k].gregorian.day, Special(month, days[k].hijriDay))
  {
    seq(|days|, k requires 0 <= k < |days| => DayCell(days[k].hijriDay, days[k].gregorian.day, Special(month, days[k].hijriDay)))
  }

  /** `renderCalendarDays(monthData)` for the displayed month: the empty
      cells, then one cell per day in order. */
  function Grid(month: int, data: MonthData): (cells: seq<Cell>)
    ensures |cells| == BlankCount(data.firstDayWeekday) + |data.days|
    ensures forall i :: 0 <= i < BlankCount(data.firstDayWeekday) ==> cells[i] == Blank
    ensures forall k :: 0 <= k < |data.days| ==> cells[BlankCount(data.firstDayWeekday)..][k].DayCell?
  {
    seq(BlankCount(data.firstDayWeekday), _ => Blank) + DayCells(month, data.days)
  }

  /** The grid of a generated month: exactly `firstDayWeekday` empty cells
      (a weekday is 0 to 6), then the days 1 to 30 in order, the special
      mark on exactly the days an occasion of the month falls on. */
  lemma GeneratedGrid(month: int, weekday: int, dateOf: int -> GregorianDay)
    requires 0 <= weekday <= 6
    ensures var cells := Grid(month, GenerateMonth(weekday, dateOf));
      && |cells| == weekday + 30
      && (forall i :: 0 <= i < weekday ==> cells[i] == Blank)
      && (forall k :: 0 <= k < 30 ==>
            && cells[weekday..][k].DayCell?
            && cells[weekday..][k].hijriDay == k + 1
            && (cells[weekday..][k].special <==> HasOccasion(IslamicEvents, month, k + 1)))
  {
    var data := GenerateMonth(weekday, dateOf);
    var cells := Grid(month, data);
    assert cells[weekday..] == DayCells(month, data.days);
    forall k | 0 <= k < 30
      ensures cells[weekday..][k].special <==> HasOccasion(IslamicEvents, month, k + 1)
    {
      EventAtNumbers(IslamicEvents, month, k + 1);
    }
  }

  // ---------------------------------------------------------------------
  // renderIslamicEvents

  /** `.filter(([key]) => key.startsWith(`${month}-`))`. */
  function OfMonth(events: seq<Occasion>, month: int): (r: seq<Occasion>)
    ensures |r| <= |events|
  {
    if |events| == 0 then []
    else if StartsWith(events[0].Key(), IntToString(month) + "-") then [events[0]] + OfMonth(events[1..], month)
    else OfMonth(events[1..], month)
  }

  /** The entries whose month is `month`, in table order: the reference
      the string prefix test is measured against. */
  function InMonth(events: seq<Occasion>, month: int): seq<Occasion> {
    if |events| == 0 then []
    else if events[0].month == month then [events[0]] + InMonth(events[1..], month)
    else InMonth(events[1..], month)
  }

  /** The prefix test keeps exactly the occasions of the month: no other
      month's key starts with `${month}-` (the key of month 1 day 10,
      "1-10", is not taken for month 10 nor month 11's "11-"). */
  lemma {:induction false} OfMonthIsInMonth(events: seq<Occasion>, month: int)
    ensures OfMonth(events, month) == InMonth(events, month)
  {
    if |events| > 0 {
      DashKeyPrefix(events[0].month, events[0].day, month);
      OfMonthIsInMonth(events[1..], month);
    }
  }

  lemma {:induction false} InMonthMembers(events: seq<Occasion>, month: int)
    ensures forall e :: e in InMonth(events, month) <==> e in events && e.month == month
  {
    if |events| > 0 {
      InMonthMembers(events[1..], month);
      assert events == [events[0]] + events[1..];
    }
  }

  /** The day of an entry, as the comparator reads it: the second part of
      the key split on '-' through `parseInt`. */
  lemma KeyDay(o: Occasion)
    ensures |Split(o.Key(), '-')| == 2
    ensures ParseInt(Split(o.Key(), '-')[1]) == Some(o.day as int)
  {
    var a, b := NatToString(o.month), NatToString(o.day);
    assert o.Key() == a + "-" + b;
    assert Split(o.Key(), '-') == [a, b] by {
      NoDashInDigits(o.month);
      NoDashInDigits(o.day);
      SplitConcat(a, b, '-');
      SplitNoSeparator(b, '-');
    }
    assert ParseInt(b) == Some(o.day as int) by {
      ParseIntOfIntToString(o.day, true);
    }
  }

  /** Ascending by day. */
  predicate ByDay(s: seq<Occasion>) {
    forall i, j :: 0 <= i < j < |s| ==> s[i].day <= s[j].day
  }

  /** One step of the stable sort by day: `x` goes in front of the first
      entry that is not earlier than it. */
  function InsertByDay(x: Occasion, t: seq<Occasion>): (r: seq<Occasion>)
    ensures multiset(r) == multiset([x] + t)
  {
    if |t| == 0 || x.day <= t[0].day then [x] + t
    else
      assert t == [t[0]] + t[1..];
      [t[0]] + InsertByDay(x, t[1..])
  }

  /** `.sort((a, b) => dayA - dayB)`: the built-in sort is stable. */
  function SortByDay(s: seq<Occasion>): (r: seq<Occasion>)
    ensures multiset(r) == multiset(s)
  {
    if |s| == 0 then []
    else
      assert s == [s[0]] + s[1..];
      InsertByDay(s[0], SortByDay(s[1..]))
  }

  lemma {:induction false} InsertByDaySorted(x: Occasion, t: seq<Occasion>)
    requires ByDay(t)
    ensures ByDay(InsertByDay(x, t))
  {
    if |t| > 0 && x.day > t[0].day {
      assert ByDay(t[1..]);
      InsertByDaySorted(x, t[1..]);
      assert forall e :: e in t[1..] ==> t[0].day <= e.day;
      InsertAbove(x, t[1..], t[0].day);
      ByDayCons(t[0], InsertByDay(x, t[1..]));
    }
  }

  /** Inserting an entry no earlier than `lo` into entries no earlier than
      `lo` gives entries no earlier than `lo`. */
  lemma {:induction false} InsertAbove(x: Occasion, t: seq<Occasion>, lo: int)
    requires lo <= x.day && forall e :: e in t ==> lo <= e.day
    ensures forall e :: e in InsertByDay(x, t) ==> lo <= e.day
  {
    if |t| > 0 && x.day > t[0].day {
      assert forall e :: e in t[1..] ==> e in t;
      InsertAbove(x, t[1..], lo);
    }
  }

  lemma ByDayCons(x: Occasion, rest: seq<Occasion>)
    requires ByDay(rest) && forall e :: e in rest ==> x.day <= e.day
    ensures ByDay([x] + rest)
  {
    var r := [x] + rest;
    forall i, j | 0 <= i < j < |r| ensures r[i].day <= r[j].day {
      assert r[j] == rest[j - 1];
      if i > 0 {
        assert r[i] == rest[i - 1];
      }
    }
  }

  /** The sort returns its input ascending by day. */
  lemma {:induction false} SortByDaySorted(s: seq<Occasion>)
    ensures ByDay(SortByDay(s))
  {
    if |s| > 0 {
      SortByDaySorted(s[1..]);
      InsertByDaySorted(s[0], SortByDay(s[1..]));
    }
  }

  /** A list already ascending by day is left as it is. */
  lemma {:induction false} SortByDayKeepsSorted(s: seq<Occasion>)
    requires ByDay(s)
    ensures SortByDay(s) == s
  {
    if |s| > 0 {
      assert ByDay(s[1..]);
      SortByDayKeepsSorted(s[1..]);
    }
  }

  /** The listed occasions of `renderIslamicEvents(month)`. */
  function MonthEvents(month: int): seq<Occasion> {
    SortByDay(OfMonth(IslamicEvents, month))
  }

  /** Table order: by month, then by day. */
  predicate ByMonthThenDay(s: seq<Occasion>) {
    forall i, j :: 0 <= i < j < |s| ==> s[i].month < s[j].month || (s[i].month == s[j].month && s[i].day <= s[j].day)
  }

  lemma {:induction false} InMonthByDay(events: seq<Occasion>, month: int)
    requires ByMonthThenDay(events)
    ensures ByDay(InMonth(events, month))
  {
    if |events| > 0 {
      assert ByMonthThenDay(events[1..]);
      InMonthByDay(events[1..], month);
      if events[0].month == month {
        HeadBeforeMonth(events, month);
        ByDayCons(events[0], InMonth(events[1..], month));
      }
    }
  }

  /** In table order, the first entry of a month is no later than the
      rest of that month. */
  lemma HeadBeforeMonth(events: seq<Occasion>, month: int)
    requires 0 < |events| && ByMonthThenDay(events) && events[0].month == month
    ensures forall e :: e in InMonth(events[1..], month) ==> events[0].day <= e.day
  {
    InMonthMembers(events[1..], month);
    forall e | e in InMonth(events[1..], month) ensures events[0].day <= e.day {
      var m :| 0 <= m < |events[1..]| && events[1..][m] == e;
      assert events[m + 1] == e;
    }
  }

  /** The list of a month is exactly the month's occasions, ascending by
      day and in table order: the table is already ordered, so the sort
      changes nothing. */
  lemma MonthEventsListing(month: int)
    ensures MonthEvents(month) == InMonth(IslamicEvents, month)
    ensures ByDay(MonthEvents(month))
    ensures forall e :: e in MonthEvents(month) <==> e in IslamicEvents && e.month == month
  {
    var f := InMonth(IslamicEvents, month);
    assert OfMonth(IslamicEvents, month) == f by {
      OfMonthIsInMonth(IslamicEvents, month);
    }
    assert ByDay(f) by {
      TableOrdered();
      InMonthByDay(IslamicEvents, month);
    }
    SortByDayKeepsSorted(f);
    InMonthMembers(IslamicEvents, month);
  }

  /** The table lists the occasions by month, then by day. */
  lemma TableOrdered()
    ensures ByMonthThenDay(IslamicEvents)
  {
  }

  /** Muharram lists the New Year on the 1st, then Ashura on the 10th. */
  lemma MuharramListing()
    ensures |MonthEvents(1)| == 2 && MonthEvents(1)[0].day == 1 && MonthEvents(1)[1].day == 10
  {
    MonthEventsListing(1);
    MuharramEntries();
  }

  lemma MuharramEntries()
    ensures InMonth(IslamicEvents, 1) == [Occasion(1, 1), Occasion(1, 10)]
  {
  }

  /** Every occasion has its names. */
  lemma NamesForEveryOccasion()
    ensures |OccasionNames| == |IslamicEvents|
  {
  }

  /** The displayed name: Arabic or French when that is the language and
      the name is present, and English otherwise (an empty Arabic or
      French name is falsy, so `event[lang]` falls through to English). */
  function EventName(names: EventNames, lang: string): (r: string)
    ensures r == names.ar || r == names.fr || r == names.en
    ensures lang == "ar" && names.ar != "" ==> r == names.ar
    ensures lang == "fr" && names.fr != "" ==> r == names.fr
    ensures lang != "ar" && lang != "fr" ==> r == names.en
    ensures !(lang == "ar" && names.ar != "") && !(lang == "fr" && names.fr != "") ==> r == names.en
    ensures r == "" ==> names.en == ""
  {
    if lang == "ar" && names.ar != "" then names.ar
    else if lang == "fr" && names.fr != "" then names.fr
    else if lang == "en" && names.en != "" then names.en
    else names.en
  }
}
