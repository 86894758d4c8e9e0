/** The date helpers of src/renderer/js/dateUtils.js and its copy in
    src/renderer/js/utils/dateUtils.js: the displayed Gregorian and Hijri
    dates, and `checkUpcomingEvent`, which names the Islamic occasion to
    announce the evening before. */
module Dates {
  import opened Wrappers
  import opened Strings
  import opened Aladhan

  /** `getGregorianDate(prayerData)`: `date.readable`, or `''` when it is
      missing or empty. */
  function GregorianDate(data: Option<DayData>): (r: string)
    ensures r != "" <==> data.Some? && data.value.date.Some? && data.value.date.value.readable.Some?
                         && data.value.date.value.readable.value != ""
    ensures r != "" ==> r == data.value.date.value.readable.value
  {
    if data.Some? && data.value.date.Some? && data.value.date.value.readable.Some? then
      data.value.date.value.readable.value
    else ""
  }

  /** The month name `getHijriDate` shows: Arabic exactly for `'ar'`. */
  function MonthName(month: HijriMonth, lang: string): string {
    if lang == "ar" then month.ar else month.en
  }

  /** `getHijriDate(prayerData, lang, t)`: `"day month year AH"`, where
      `ah` is what `t('ah')` returns; `''` without a Hijri date. */
  function HijriDateText(data: Option<DayData>, lang: string, ah: string): (r: string)
    ensures data.None? || data.value.date.None? || data.value.date.value.hijri.None? ==> r == ""
  {
    if data.None? || data.value.date.None? || data.value.date.value.hijri.None? then ""
    else
      var h := data.value.date.value.hijri.value;
      h.day + " " + MonthName(h.month, lang) + " " + h.year + " " + ah
  }

  /** When no field holds a space, the text splits back into the day, the
      month name in the chosen language, the year and the suffix. */
  lemma HijriDateFields(h: HijriDate, date: DateInfo, data: DayData, lang: string, ah: string)
    requires data.date == Some(date) && date.hijri == Some(h)
    requires ' ' !in h.day && ' ' !in MonthName(h.month, lang) && ' ' !in h.year && ' ' !in ah
    ensures Split(HijriDateText(Some(data), lang, ah), ' ') == [h.day, MonthName(h.month, lang), h.year, ah]
  {
    var m := MonthName(h.month, lang);
    assert HijriDateText(Some(data), lang, ah) == h.day + [' '] + (m + [' '] + (h.year + [' '] + ah));
    SplitFour(h.day, m, h.year, ah);
  }

  lemma SplitFour(a: string, b: string, c: string, d: string)
    requires ' ' !in a && ' ' !in b && ' ' !in c && ' ' !in d
    ensures Split(a + [' '] + (b + [' '] + (c + [' '] + d)), ' ') == [a, b, c, d]
  {
    var cd := c + [' '] + d;
    var bcd := b + [' '] + cd;
    assert Split(cd, ' ') == [c, d] by {
      SplitConcat(c, d, ' ');
      SplitNoSeparator(d, ' ');
    }
    assert Split(bcd, ' ') == [b, c, d] by {
      SplitConcat(b, cd, ' ');
    }
    assert Split(a + [' '] + bcd, ' ') == [a] + [b, c, d] by {
      SplitConcat(a, bcd, ' ');
    }
    ConsFour(a, b, c, d);
  }

  // ---------------------------------------------------------------------
  // checkUpcomingEvent

  /** An entry of `islEvents`: the occasion's month and day, its key, and
      the month and days on whose evening it is announced. */
  datatype IslEvent = IslEvent(month: int, day: int, key: string, checkMonth: int, checkDays: seq<int>)

  const IslEvents: seq<IslEvent> := [
    IslEvent(1, 1, "muharramStart", 12, [29, 30]),
    IslEvent(1, 9, "tasua", 1, [8]),
    IslEvent(1, 10, "ashura", 1, [9]),
    IslEvent(3, 12, "mawlid", 3, [11]),
    IslEvent(7, 27, "israMiraj", 7, [26]),
    IslEvent(8, 1, "shabanStart", 7, [29, 30]),
    IslEvent(9, 1, "ramadanStart", 8, [29, 30]),
    IslEvent(9, 27, "laylatAlQadr", 9, [26]),
    IslEvent(10, 1, "eidAlFitr", 9, [29, 30]),
    IslEvent(12, 9, "arafat", 12, [8]),
    IslEvent(12, 10, "eidAlAdha", 12, [9])]

  /** `event.checkMonth === month && event.checkDays.includes(day)`; a NaN
      day or month (`None`) matches nothing. */
  predicate Matches(e: IslEvent, day: Option<int>, month: Option<int>) {
    day.Some? && month.Some? && e.checkMonth == month.value && day.value in e.checkDays
  }

  /** The first matching entry's key, as the `for ... of` loop returns it. */
  function FirstMatch(events: seq<IslEvent>, day: Option<int>, month: Option<int>): (r: Option<string>)
    ensures r.None? <==> forall i :: 0 <= i < |events| ==> !Matches(events[i], day, month)
    ensures r.Some? ==> exists i :: 0 <= i < |events| && Matches(events[i], day, month) && r.value == events[i].key
                           && forall j :: 0 <= j < i ==> !Matches(events[j], day, month)
  {
    if |events| == 0 then None
    else if Matches(events[0], day, month) then Some(events[0].key)
    else
      var r := FirstMatch(events[1..], day, month);
      if r.Some? then
        var i :| 0 <= i < |events[1..]| && Matches(events[1..][i], day, month) && r.value == events[1..][i].key
                 && forall j :: 0 <= j < i ==> !Matches(events[1..][j], day, month);
        assert Matches(events[i + 1], day, month) && forall j :: 0 <= j < i + 1 ==> !Matches(events[j], day, month) by {
          forall j | 0 < j < i + 1 ensures !Matches(events[j], day, month) {
            assert events[j] == events[1..][j - 1];
          }
        }
        r
      else
        assert forall i :: 0 <= i < |events| ==> !Matches(events[i], day, month) by {
          forall i | 0 < i < |events| ensures !Matches(events[i], day, month) {
            assert events[i] == events[1..][i - 1];
          }
        }
        None
  }

  /** The event check on parsed numbers against a table of occasions:
      the annual occasions first, then the white days, then the weekly
      fasts announced on Sunday and Wednesday. */
  function EventIn(events: seq<IslEvent>, day: Option<int>, month: Option<int>, dayOfWeek: int): Option<string> {
    match FirstMatch(events, day, month)
    case Some(key) => Some(key)
    case None =>
      if day.Some? && day.value in [12, 13, 14] then Some("whiteDays")
      else if dayOfWeek == 0 then Some("fastingMonday")
      else if dayOfWeek == 3 then Some("fastingThursday")
      else None
  }

  /** `checkUpcomingEvent(hijriDay, hijriMonth, dayOfWeek)`: both texts go
      through `Number.parseInt(x, 10)`; a caller that omits the weekday
      passes -1. `None` is `null`. */
  function CheckUpcomingEvent(hijriDay: string, hijriMonth: string, dayOfWeek: int): Option<string> {
    EventIn(IslEvents, ParseInt10(hijriDay), ParseInt10(hijriMonth), dayOfWeek)
  }

  /** The three tiers of `checkUpcomingEvent`: a matching occasion wins over
      everything, the white days over the weekday, and otherwise only
      Sunday and Wednesday give a result, so the default weekday -1 gives
      `null` once no occasion or white day applies. */
  lemma EventTiers(events: seq<IslEvent>, day: Option<int>, month: Option<int>, dayOfWeek: int)
    ensures var r := EventIn(events, day, month, dayOfWeek);
      && ((exists i :: 0 <= i < |events| && Matches(events[i], day, month)) ==>
            r.Some? && r == FirstMatch(events, day, month))
      && ((forall i :: 0 <= i < |events| ==> !Matches(events[i], day, month)) ==>
            r == if day.Some? && 12 <= day.value <= 14 then Some("whiteDays")
                 else if dayOfWeek == 0 then Some("fastingMonday")
                 else if dayOfWeek == 3 then Some("fastingThursday")
                 else None)
  {
  }

  /** No occasion of the table uses the keys of the other two tiers, so a
      result always tells which tier produced it. */
  lemma OccasionKeysDistinct(i: int)
    requires 0 <= i < |IslEvents|
    ensures IslEvents[i].key != "whiteDays" && IslEvents[i].key != "fastingMonday" && IslEvents[i].key != "fastingThursday"
  {
  }

  /** No two entries of the table are announced on the same evening, so
      the order of `islEvents` never decides the result. */
  lemma EventsDisjoint(i: int, j: int, d: int)
    requires 0 <= i < j < |IslEvents|
    ensures !(IslEvents[i].checkMonth == IslEvents[j].checkMonth && d in IslEvents[i].checkDays && d in IslEvents[j].checkDays)
  {
  }

  /** Every entry is announced on the eve of its occasion: the day before in
      the same month, or the 29th or 30th of the month before (December
      before January) when the occasion falls on the 1st. */
  lemma EventsOnTheEve(i: int)
    requires 0 <= i < |IslEvents|
    ensures var e := IslEvents[i];
      if e.day == 1 then e.checkMonth == (if e.month == 1 then 12 else e.month - 1) && e.checkDays == [29, 30]
      else e.checkMonth == e.month && e.checkDays == [e.day - 1]
  {
  }

  /** The 29th of Dhu al-Hijja announces the new year and the 9th of
      Muharram announces Ashura, whatever the weekday. */
  lemma OccasionExamples(dayOfWeek: int)
    ensures EventIn(IslEvents, Some(29), Some(12), dayOfWeek) == Some("muharramStart")
    ensures EventIn(IslEvents, Some(9), Some(1), dayOfWeek) == Some("ashura")
  {
    assert Matches(IslEvents[0], Some(29), Some(12));
    assert Matches(IslEvents[2], Some(9), Some(1));
  }

  /** Only the evenings of six months announce an occasion. */
  lemma QuietMonth(day: Option<int>, month: int)
    requires month !in {12, 1, 3, 7, 8, 9}
    ensures FirstMatch(IslEvents, day, Some(month)) == None
  {
    forall i | 0 <= i < |IslEvents| ensures IslEvents[i].checkMonth in {12, 1, 3, 7, 8, 9} {
      CheckMonthOf(i);
    }
  }

  lemma CheckMonthOf(i: int)
    requires 0 <= i < |IslEvents|
    ensures IslEvents[i].checkMonth in {12, 1, 3, 7, 8, 9}
  {
  }

  /** The 12th to 14th of a month without an occasion are white days
      whatever the weekday; any other day of such a month is `null` with
      the default weekday. */
  lemma QuietMonthDays(day: int, month: int, dayOfWeek: int)
    requires month !in {12, 1, 3, 7, 8, 9}
    ensures 12 <= day <= 14 ==> EventIn(IslEvents, Some(day), Some(month), dayOfWeek) == Some("whiteDays")
    ensures !(12 <= day <= 14) ==> EventIn(IslEvents, Some(day), Some(month), -1) == None
  {
    QuietMonth(Some(day), month);
  }

  /** A day and a month passed as numbers read as themselves. */
  lemma NumericArguments(day: int, month: int, dayOfWeek: int)
    ensures CheckUpcomingEvent(IntToString(day), IntToString(month), dayOfWeek) == EventIn(IslEvents, Some(day), Some(month), dayOfWeek)
  {
    ParseIntOfIntToString(day, false);
    ParseIntOfIntToString(month, false);
  }
}
