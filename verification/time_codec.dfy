/** Conversions between clock texts and seconds since midnight:
    `getSecondsFromTime` and the `hh:mm:ss` `formatTime` shared by
    src/renderer/js/utils/dateUtils.js, src/renderer/js/dateUtils.js and both
    renderer files, and the `m:ss` `formatTime` of the playlist. */
module TimeCodec {
  import opened Wrappers
  import opened Strings
  import opened JsNumber

  const SecondsPerDay: int := 86400

  /** `const [h, m] = time.split(':').map(Number); h * 3600 + m * 60`. */
  function ClockSeconds(time: string): Option<int> {
    SecondsOfParts(Split(time, ':'))
  }

  /** Hours and minutes from the `:`-parts of a clock text. A missing minutes
      part is `undefined`, which makes the sum NaN (`None`); parts after the
      second are ignored. */
  function SecondsOfParts(parts: seq<string>): (r: Option<int>)
    requires 1 <= |parts|
    ensures |parts| == 1 ==> r == None
    ensures r.Some? <==> 2 <= |parts| && ToNumber(parts[0]).Some? && ToNumber(parts[1]).Some?
  {
    var h := ToNumber(parts[0]);
    var m := if 2 <= |parts| then ToNumber(parts[1]) else None;
    if h.Some? && m.Some? then Some(h.value * 3600 + m.value * 60) else None
  }

  /** `getSecondsFromTime`: falsy text (the empty string) counts as midnight. */
  function SecondsFromTime(time: string): (r: Option<int>)
    ensures time == "" ==> r == Some(0)
    ensures time != "" ==> r == ClockSeconds(time)
  {
    if time == "" then Some(0) else ClockSeconds(time)
  }

  /** Two runs of digits joined by a colon read as hours and minutes. */
  lemma ClockSecondsOfDigits(hh: string, mm: string)
    requires 0 < |hh| && AllDigits(hh) && 0 < |mm| && AllDigits(mm)
    ensures var r := ClockSeconds(hh + ":" + mm);
      r.Some? && r.value == RadixValue(hh, false) * 3600 + RadixValue(mm, false) * 60
  {
    var t := hh + ":" + mm;
    var x: int, y: int := RadixValue(hh, false), RadixValue(mm, false);
    assert Split(t, ':') == [hh, mm] by { SplitTwo(hh, mm); }
    assert ToNumber(hh) == Some(x) by { ToNumberOfDigits(hh); }
    assert ToNumber(mm) == Some(y) by { ToNumberOfDigits(mm); }
    assert ClockSeconds(t) == Some(x * 3600 + y * 60) by { ClockSecondsOfParts(t, hh, mm, x, y); }
  }

  lemma ClockSecondsOfParts(time: string, hh: string, mm: string, x: int, y: int)
    requires Split(time, ':') == [hh, mm]
    requires ToNumber(hh) == Some(x) && ToNumber(mm) == Some(y)
    ensures ClockSeconds(time) == Some(x * 3600 + y * 60)
  {
    assert SecondsOfParts([hh, mm]) == Some(x * 3600 + y * 60);
  }

  lemma SplitTwo(a: string, b: string)
    requires AllDigits(a) && AllDigits(b)
    ensures Split(a + ":" + b, ':') == [a, b]
  {
    NoColonInDigits(a);
    NoColonInDigits(b);
    assert a + ":" + b == a + [':'] + b;
    SplitConcat(a, b, ':');
    SplitNoSeparator(b, ':');
  }

  lemma SplitThree(a: string, b: string, c: string)
    requires AllDigits(a) && AllDigits(b) && AllDigits(c)
    ensures Split(a + ":" + b + ":" + c, ':') == [a, b, c]
  {
    NoColonInDigits(a);
    NoColonInDigits(b);
    NoColonInDigits(c);
    SplitTriple(a, b, c, ':');
  }

  lemma NoColonInDigits(d: string)
    requires AllDigits(d)
    ensures ':' !in d
  {
    NonDigitAbsent(d, ':', false);
  }

  /** `n.toString().padStart(2, '0')`. */
  function Pad2Int(n: int): string {
    PadStart(IntToString(n), 2, '0')
  }

  /** `formatTime(seconds)`: `Math.floor(s / 3600)`, `Math.floor((s % 3600) / 60)`
      and `s % 60`, each padded to two characters. Dafny's `/` by a positive
      divisor is `Math.floor` of the quotient; `%` is JavaScript's. */
  function FormatHms(seconds: int): string {
    var hours := seconds / 3600;
    var minutes := JsRem(seconds, 3600) / 60;
    var secs := JsRem(seconds, 60);
    Pad2Int(hours) + ":" + Pad2Int(minutes) + ":" + Pad2Int(secs)
  }

  /** The three fields of a time of day below 100 hours. */
  lemma HmsArithmetic(seconds: int)
    requires 0 <= seconds < 360000
    ensures 0 <= seconds / 3600 < 100
    ensures JsRem(seconds, 3600) / 60 == (seconds % 3600) / 60 < 60
    ensures JsRem(seconds, 60) == seconds % 60
    ensures seconds == (seconds / 3600) * 3600 + ((seconds % 3600) / 60) * 60 + seconds % 60
  {
    JsRemNonNegative(seconds, 3600);
    JsRemNonNegative(seconds, 60);
    var h, r := seconds / 3600, seconds % 3600;
    assert seconds == h * 3600 + r;
    var m, s := r / 60, r % 60;
    assert r == m * 60 + s;
    assert seconds % 60 == s by {
      assert seconds == (h * 60 + m) * 60 + s;
    }
  }

  lemma Pad2Facts(n: int)
    requires 0 <= n < 100
    ensures Pad2Int(n) == Pad2(n)
    ensures |Pad2(n)| == 2 && AllDigits(Pad2(n)) && RadixValue(Pad2(n), false) == n
  {
    Pad2Digits(n);
  }

  /** A field of `formatTime`'s output: two decimal digits. */
  predicate TwoDigits(p: string) { |p| == 2 && AllDigits(p) }

  /** Below 100 hours the three fields of `formatTime` are two digits each
      and recompose the input: `hh * 3600 + mm * 60 + ss == seconds`. */
  lemma FormatHmsFields(seconds: int)
    requires 0 <= seconds < 360000
    ensures var parts := Split(FormatHms(seconds), ':');
      && |parts| == 3 && TwoDigits(parts[0]) && TwoDigits(parts[1]) && TwoDigits(parts[2])
      && RadixValue(parts[1], false) < 60 && RadixValue(parts[2], false) < 60
      && RadixValue(parts[0], false) * 3600 + RadixValue(parts[1], false) * 60
         + RadixValue(parts[2], false) == seconds
  {
    HmsArithmetic(seconds);
    var h, m, s := seconds / 3600, (seconds % 3600) / 60, seconds % 60;
    var a, b, c := Pad2(h), Pad2(m), Pad2(s);
    assert TwoDigits(a) && RadixValue(a, false) == h by { Pad2Facts(h); }
    assert TwoDigits(b) && RadixValue(b, false) == m by { Pad2Facts(m); }
    assert TwoDigits(c) && RadixValue(c, false) == s by { Pad2Facts(s); }
    assert FormatHms(seconds) == a + ":" + b + ":" + c by { FormatHmsPadded(seconds); }
    assert Split(a + ":" + b + ":" + c, ':') == [a, b, c] by { SplitThree(a, b, c); }
  }

  lemma FormatHmsPadded(seconds: int)
    requires 0 <= seconds < 360000
    ensures FormatHms(seconds) == Pad2(seconds / 3600) + ":" + Pad2((seconds % 3600) / 60) + ":" + Pad2(seconds % 60)
  {
    HmsArithmetic(seconds);
    Pad2Facts(seconds / 3600);
    Pad2Facts((seconds % 3600) / 60);
    Pad2Facts(seconds % 60);
  }

  /** `h * 3600 + m * 60` splits back into `h` and `m`. */
  lemma HoursMinutesArithmetic(h: nat, m: nat)
    requires m < 60
    ensures (h * 3600 + m * 60) / 3600 == h
    ensures ((h * 3600 + m * 60) % 3600) / 60 == m
    ensures (h * 3600 + m * 60) % 60 == 0
  {
    var s := h * 3600 + m * 60;
    assert 0 <= m * 60 < 3600;
    assert s / 3600 == h && s % 3600 == m * 60;
    assert s == (h * 60 + m) * 60;
  }

  /** `getSecondsFromTime(time)` yields the number `seconds`. */
  predicate ReadsAs(time: string, seconds: int) {
    var r := SecondsFromTime(time);
    r.Some? && r.value == seconds
  }

  /** `getSecondsFromTime("HH:MM")` for two-digit hours and minutes. */
  lemma ClockOfPadded(h: nat, m: nat)
    requires h < 100 && m < 60
    ensures ReadsAs(Pad2(h) + ":" + Pad2(m), h * 3600 + m * 60)
  {
    var a, b := Pad2(h), Pad2(m);
    assert 0 < |a| && AllDigits(a) && RadixValue(a, false) == h by { Pad2Facts(h); }
    assert 0 < |b| && AllDigits(b) && RadixValue(b, false) == m by { Pad2Facts(m); }
    ClockSecondsOfDigits(a, b);
  }

  /** `formatTime(getSecondsFromTime("HH:MM")) == "HH:MM:00"` for every
      two-digit hour and minute. */
  lemma ClockRoundTrip(h: nat, m: nat)
    requires h < 100 && m < 60
    ensures var seconds := h * 3600 + m * 60;
      ReadsAs(Pad2(h) + ":" + Pad2(m), seconds) && FormatHms(seconds) == Pad2(h) + ":" + Pad2(m) + ":00"
  {
    ClockOfPadded(h, m);
    FormatWholeMinutes(h, m);
  }

  /** A whole number of minutes below 100 hours prints with `:00` seconds. */
  lemma FormatWholeMinutes(h: nat, m: nat)
    requires h < 100 && m < 60
    ensures FormatHms(h * 3600 + m * 60) == Pad2(h) + ":" + Pad2(m) + ":00"
  {
    var s: int := h * 3600 + m * 60;
    HoursMinutesArithmetic(h, m);
    FormatOfFields(s, h, m);
  }

  lemma FormatOfFields(s: int, h: int, m: int)
    requires 0 <= s < 360000 && s / 3600 == h && (s % 3600) / 60 == m && s % 60 == 0
    ensures FormatHms(s) == Pad2(h) + ":" + Pad2(m) + ":00"
  {
    assert FormatHms(s) == Pad2(h) + ":" + Pad2(m) + ":" + Pad2(0) by { FormatHmsPadded(s); }
    Pad2Zero();
  }

  lemma Pad2Zero()
    ensures Pad2(0) == "00"
  {
    var z := Pad2(0);
    assert NatToString(0) == "0";
    assert z[0] == '0' && z[1] == '0';
  }

  /** The playlist's `formatTime`: `'0:00'` for NaN or a negative value,
      otherwise minutes, a colon, and the seconds padded to two digits. */
  function FormatClock(seconds: Option<int>): (r: string)
    ensures seconds.None? || seconds.value < 0 ==> r == "0:00"
  {
    if seconds.None? || seconds.value < 0 then "0:00"
    else
      var mins := seconds.value / 60;
      var secs := seconds.value % 60;
      IntToString(mins) + ":" + (if secs < 10 then "0" else "") + IntToString(secs)
  }

  /** A valid duration splits into whole minutes and two-digit seconds that
      recompose it. */
  lemma FormatClockFields(seconds: nat)
    ensures var parts := Split(FormatClock(Some(seconds)), ':');
      && |parts| == 2 && AllDigits(parts[0]) && TwoDigits(parts[1])
      && RadixValue(parts[0], false) * 60 + RadixValue(parts[1], false) == seconds
  {
    var mins, secs := seconds / 60, seconds % 60;
    var a, b := NatToString(mins), Pad2(secs);
    assert FormatClock(Some(seconds)) == a + [':'] + b by { ClockText(seconds); }
    assert TwoDigits(b) && RadixValue(b, false) == secs by { Pad2Facts(secs); }
    assert AllDigits(a) && RadixValue(a, false) == mins by { NatToStringRoundTrip(mins); }
    assert Split(a + [':'] + b, ':') == [a, b] by {
      NoColonInDigits(a);
      NoColonInDigits(b);
      SplitPair(a, b, ':');
    }
  }

  /** The text of a valid duration: the minutes, a colon and the padded
      seconds. */
  lemma ClockText(seconds: nat)
    ensures FormatClock(Some(seconds)) == NatToString(seconds / 60) + [':'] + Pad2(seconds % 60)
  {
    var mins, secs := seconds / 60, seconds % 60;
    var p := (if secs < 10 then "0" else "") + IntToString(secs);
    assert FormatClock(Some(seconds)) == IntToString(mins) + ":" + p;
    assert IntToString(mins) == NatToString(mins);
    assert ":" == [':'];
    assert p == Pad2(secs) by {
      if secs < 10 {
        assert NatToString(secs) == [DigitChar(secs)];
        Pad2Short(secs);
      } else {
        Pad2Digits(secs);
      }
    }
  }

  lemma Pad2Short(n: nat)
    requires n < 10
    ensures Pad2(n) == "0" + NatToString(n)
  {
    assert Pad2(n) == Fill('0', 1) + NatToString(n);
    assert Fill('0', 1) == "0";
  }
}
