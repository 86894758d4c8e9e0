/** The day record returned by the Aladhan `timingsByCity` endpoint, reduced
    to the fields the application reads, and the outcome of fetching it. */
module Aladhan {
  import opened Wrappers

  /** The five daily prayers, in the order of the `prayerNames` tables. */
  datatype PrayerName = Fajr | Dhuhr | Asr | Maghrib | Isha {

    /** Position of the prayer in the `prayerNames` key order. */
    function Ord(): (n: nat)
      ensures n < 5
    {
      match this
      case Fajr => 0
      case Dhuhr => 1
      case Asr => 2
      case Maghrib => 3
      case Isha => 4
    }
  }

  /** The keys of `prayerNames`, in object order. */
  const PrayerOrder: seq<PrayerName> := [Fajr, Dhuhr, Asr, Maghrib, Isha]

  /** `date.hijri.month`: the month number and its English and Arabic names. */
  datatype HijriMonth = HijriMonth(number: int, en: string, ar: string)

  /** `date.hijri`: day and year arrive as texts, the month as a record. */
  datatype HijriDate = HijriDate(day: string, month: HijriMonth, year: string)

  /** `date`: the readable Gregorian date and the Hijri date, either of which
      may be missing. */
  datatype DateInfo = DateInfo(readable: Option<string>, hijri: Option<HijriDate>)

  /** `data.data`: the prayer timings (clock texts such as `"05:12"`) and the
      date. A prayer missing from `timings` is a key absent from the map. */
  datatype DayData = DayData(timings: Option<map<PrayerName, string>>, date: Option<DateInfo>)

  /** What `fetch(url)` followed by `response.json()` yields: a thrown error
      (network failure or unparsable body), or a response with its `ok` flag,
      the body's `code` and its `data`. */
  datatype Reply = Thrown | Replied(ok: bool, code: Option<int>, data: Option<DayData>)

  /** The reply carries a day the loaders accept: an ok response whose body
      has `code === 200`. */
  predicate Accepted(reply: Reply) {
    reply.Replied? && reply.ok && reply.code == Some(200)
  }
}
