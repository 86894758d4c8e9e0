# Salaty core in Dafny

Salaty is a desktop prayer-time application. It fetches the day's five
prayer times for a city from the Aladhan service and finds the current and
the next prayer. It counts down to the next one, sends a reminder a few
minutes before it, and plays or announces the Adhan when the time comes.
Around this engine sit smaller pieces of logic:

- the Gregorian and Hijri date texts and the Islamic occasions they announce;
- the settings form;
- the Hijri month calendar and its cache;
- the Athkar counters;
- the Ramadan page and the Ramadan mode of the main window;
- the background Quran player and its play list;
- the album catalogue and the Archive.org track mapping;
- the three translation lookups;
- the unescaping of the names-of-Allah texts.

This project models that logic as pure Dafny functions over immutable data
and proves what each piece promises. The network, the DOM, timers and audio
are not part of the model.

- **Replies are parameters.** A server reply is a datatype value passed in:
  `Reply`, `FirstDayReply`, `StartReply`.
- **Time is a parameter.** The clock is a `now` in seconds since midnight.
  The periodic timer is a sequence of such values.
- **Some browser functions are parameters.** `toLowerCase`,
  `encodeURIComponent` and the calendar's date arithmetic are function
  parameters.
- **JavaScript semantics are written out where the code relies on them:**
  - truthiness (`||`, `!x`);
  - `parseInt` and `Number()` on texts;
  - the truncating `%` (`JsNumber.JsRem`);
  - template-literal keys (`${month}-${year}`);
  - strings as UTF-16 code units where the code works on escapes.

The modules follow the source files:

| module | file |
|---|---|
| `Wrappers`, `Strings`, `JsNumber` | option/result types, the text functions and JavaScript number conversions the code uses |
| `Aladhan` | the day record the Aladhan endpoint returns (`data.timings`, `data.date`) |
| `TimeCodec` | `getSecondsFromTime`, `formatTime` (both `dateUtils.js` copies), the player's `formatTime` |
| `Timetable` | `getCurrentAndNextPrayer` in `src/renderer/js/prayer.js` |
| `Adhan` | the per-prayer Adhan setting and the Adhan call in `prayer.js` |
| `Scheduler` | the session state machine of `prayer.js`: reminder, announcement, first load, `loadPrayerTimes` |
| `Renderers` | the inline copies of the engine in `src/renderer/js/renderer.js` and in the root `renderer.js` |
| `Dates` | `getGregorianDate`, `getHijriDate`, `checkUpcomingEvent` |
| `Settings` | `initSettingsForm` and `saveSettings` in `settings.js` |
| `HijriCalendar` | the month navigation, cache, grid and occasion list of `hijriCalendar.js` |
| `Athkar` | the counters of `athkarUI.js` |
| `RamadanUI`, `Ramadan` | the Ramadan page (`ramadanUI.js`) and the Ramadan mode (`ramadan.js`) |
| `Player`, `Playlist` | `background-player.js` and the track list of `playlist.js` |
| `Localized`, `Albums`, `TrackUtils` | `getLocalized`, the album catalogue, `fetchArchiveTracks` |
| `Translations`, `RootTranslations`, `SiteLanguage` | the three `t` functions and the web site's language choice |
| `Asma` | `decodeUnicode` of `asmaUI.js` |

### Where the code and its description differ

The model follows the code in each case.

- `loadPrayerTimes` in `prayer.js` does not reset the session variables
  (`currentActivePrayer`, `lastRemindedPrayer`, `isFirstLoad`, the mutes).
  It only replaces the day's data when a location is set and the reply is
  accepted (`Scheduler.LoadPrayerTimes`).
- The web site's `getPreferredLanguage` (`docs/translations.js`) falls back
  to Arabic, although its comment says English (`SiteLanguage.PreferredLanguage`).
- After `refresh-tracks` to a shorter list, the background player keeps its
  index (`Player.StaleIndexAfterRefresh`). Nothing is then broadcast as
  playing, and "previous" does nothing unless the index is just past the end.

## Model

| member | source | states |
|---|---|---|
| JsNumber.JsRem | src/renderer/js/prayer.js:50 | JavaScript's `%` for a positive divisor: the remainder lies strictly between `-b` and `b` and takes the dividend's sign |
| JsNumber.JsRemMinusOne | src/renderer/js/prayer.js:50 | `-1 % n` is `-1` in JavaScript, not `n - 1`: the wrap-around index in `prayer.js` stays negative |
| JsNumber.ToNumberOfDigits | src/renderer/js/utils/dateUtils.js:33 | `Number()` of a non-empty digit string is its decimal value |
| JsNumber.ToNumberBlank | src/renderer/js/utils/dateUtils.js:33 | `Number()` of a blank text is 0, not NaN |
| TimeCodec.SecondsFromTime | src/renderer/js/utils/dateUtils.js:31-35 | a falsy time gives 0 seconds; any other is read as hours and minutes |
| TimeCodec.SecondsOfParts | src/renderer/js/utils/dateUtils.js:33-34 | a time with no colon is NaN; the result is a number exactly when both the hour and minute parts convert |
| TimeCodec.ClockSecondsOfDigits | src/renderer/js/utils/dateUtils.js:33-34 | `HH:MM` in digits reads as `HH*3600 + MM*60` |
| TimeCodec.HmsArithmetic | src/renderer/js/utils/dateUtils.js:40-45 | under 100 hours the hour, minute and second fields are in range and recompose the seconds; the truncating `%` agrees with Euclid's here |
| TimeCodec.FormatHmsFields | src/renderer/js/utils/dateUtils.js:40-45 | `formatTime` yields three two-digit fields that read back as hours, minutes and seconds of the input |
| TimeCodec.FormatHmsPadded | src/renderer/js/dateUtils.js:40-45 | the text is the zero-padded hours, minutes and seconds joined by colons |
| TimeCodec.ClockOfPadded | src/renderer/js/dateUtils.js:31-35 | a zero-padded `HH:MM` reads back as its seconds |
| TimeCodec.ClockRoundTrip | src/renderer/js/utils/dateUtils.js:31-45 | formatting whole minutes and reading the `HH:MM` prefix back gives the same seconds |
| TimeCodec.FormatWholeMinutes | src/renderer/js/utils/dateUtils.js:40-45 | a whole number of minutes formats with `:00` seconds |
| TimeCodec.FormatClock | src/renderer/js/playlist.js:369-374 | a missing or negative time shows `0:00` |
| TimeCodec.FormatClockFields | src/renderer/js/playlist.js:371-373 | the player clock splits into whole minutes and two-digit seconds that recompose the input |
| TimeCodec.ClockText | src/renderer/js/playlist.js:371-373 | the player clock shows unpadded minutes and zero-padded seconds |
| Timetable.ReadDay | src/renderer/js/prayer.js:29-35 | each present prayer's time is read as seconds since midnight, the others are absent |
| Timetable.Shift | src/renderer/js/prayer.js:36 | a prayer before the current time moves one day ahead; a later one stays |
| Timetable.SortAscending | src/renderer/js/prayer.js:46 | a list in prayer-key order sorts ascending by seconds, ties kept in key order |
| Timetable.ScheduleLaid | src/renderer/js/prayer.js:29-46 | the list holds one shifted row per present prayer, sorted |
| Timetable.FindFirstAfter | src/renderer/js/prayer.js:48 | `findIndex` finds the first row after the time, or none |
| Timetable.CursorOf | src/renderer/js/prayer.js:51-52 | the remaining time is never negative, and equals next minus now when that is non-negative |
| Timetable.CurrentAndNext | src/renderer/js/prayer.js:27-54 | there is an answer exactly when the day has timings and some prayer is present |
| Timetable.CursorMeaning | src/renderer/js/prayer.js:48-52 | the cursor names the last prayer passed (ties in key order), else the latest; the next is the earliest still ahead, else tomorrow's first; it counts down under a day |
| Timetable.CurrentAndNextMeaning | src/renderer/js/prayer.js:27-54 | every answer names the current and next prayers of the day, and the remaining time is within `[0, 86400)` |
| Timetable.IsCurrentUnique | src/renderer/js/prayer.js:48-50 | at most one prayer meets the definition of current |
| Timetable.IsNextUnique | src/renderer/js/prayer.js:48-50 | at most one prayer meets the definition of next |
| Timetable.CursorRemaining | src/renderer/js/prayer.js:51-52 | the remaining time is the clock distance from now to the next prayer's time, modulo one day |
| Timetable.NextIndexIsFirstAfter | src/renderer/js/prayer.js:48-50 | the next row is the first later than now when one exists |
| Adhan.Toggle | src/renderer/js/prayer.js:326-337 | a press always lands on a different, defined setting |
| Adhan.ToggleFor | src/renderer/js/prayer.js:326-340 | pressing a prayer's button changes that prayer's setting and no other |
| Adhan.ToggleThrice | src/renderer/js/prayer.js:330-337 | three presses cycle sound, silent, off back to the start |
| Adhan.ToggleForThrice | src/renderer/js/prayer.js:326-339 | three presses on one prayer restore every prayer's effective setting |
| Adhan.Reload | src/renderer/js/prayer.js:166-173 | the saved settings are used when present, else every prayer has sound |
| Adhan.AdhanDelay | src/renderer/js/prayer.js:301-308 | a prayer time more than half a day ahead of now is taken as yesterday's: the delay is wrapped forward one day |
| Adhan.AdhanCall | src/renderer/js/prayer.js:300-324 | the Adhan fires exactly when the delay is within 15 minutes and the prayer is not switched off; its mode is sound or silent |
| Adhan.AdhanWindowOnClock | src/renderer/js/prayer.js:300-313 | the delay is in the window exactly when now minus the prayer time, mod one day, is at most 900 seconds |
| Adhan.IshaPastMidnight | src/renderer/js/prayer.js:300-320 | an Isha just before midnight still fires just after it |
| Scheduler.ReminderMinutes | src/renderer/js/prayer.js:235 | the lead time is the saved minutes when set and non-zero, and is never zero |
| Scheduler.TickIdle | src/renderer/js/prayer.js:226-231 | without data, or with no prayer present, a tick changes nothing and emits nothing |
| Scheduler.AdvanceSession | src/renderer/js/prayer.js:239-280 | after a tick the current prayer is the cursor's; the reminded prayer moves only when a reminder is due; the first-load flag clears and the settings reload only when the current prayer changes |
| Scheduler.AdvanceReminder | src/renderer/js/prayer.js:235-253 | a tick emits one reminder, naming the next prayer and the lead time, exactly when one is due, and none otherwise |
| Scheduler.AdvanceAnnounce | src/renderer/js/prayer.js:255-280 | a tick announces the Adhan exactly when the current prayer changed, it is not the first load, and the Adhan call lets it through |
| Scheduler.ReminderOnce | src/renderer/js/prayer.js:239-252 | over any run of ticks with the same next prayer, at most one reminder is sent |
| Scheduler.FirstLoadOnce | src/renderer/js/prayer.js:274-280 | once cleared, the first-load flag never returns; while set, nothing is announced |
| Scheduler.ToggleAdhan | src/renderer/js/prayer.js:326-342 | the button updates one prayer's setting, stores the whole table, and leaves the rest of the session alone |
| Scheduler.LoadPrayerTimes | src/renderer/js/prayer.js:59-96 | with a location and an accepted reply the day becomes the reply's data and, when there is data, the Adhan settings are reloaded from storage; otherwise the session and the day are unchanged; the tick's own variables are always kept |
| Renderers.InlineDayIsReadDay | src/renderer/js/renderer.js:392-393 | the inline copy reads the timings as the engine does |
| Renderers.CopyCursorAgrees | src/renderer/js/renderer.js:385-418 | the inline copy finds the same current prayer, next prayer and remaining time as the engine |
| Renderers.CurrentLanguage | src/renderer/js/renderer.js:145-147 | the saved language when set; never the empty text |
| Renderers.SrcTickIdle | src/renderer/js/renderer.js:376 | without timings a tick leaves the state as it is and reports no change |
| Renderers.SrcTickAgrees | src/renderer/js/renderer.js:374-421 | in a supported language the tick takes the engine's current prayer and remaining time, reporting a change exactly when the current prayer differs |
| Renderers.SrcLoad | src/renderer/js/renderer.js:303-332 | the day changes only after an accepted reply for a set location, and then becomes the reply's data |
| Renderers.RootTickAgrees | renderer.js:204-252 | the root page's tick picks the engine's current prayer and reports a change exactly when it differs |
| Renderers.RootLoad | renderer.js:65-123 | with a location and an accepted reply the day becomes the reply's data; otherwise nothing changes; the load resolves true exactly when it was accepted and `updateUI` does not throw, so never with a day and a countdown element on the page |
| Renderers.LastPassed | renderer.js:158-169 | the loop stops at the first prayer still ahead; the key is the prayer before it, or the last of the day when none has passed |
| Renderers.UiCurrentKey | renderer.js:125-169 | a key is highlighted exactly when some prayer is present; it meets the definition of current and, on a day of clock times, is the engine's current prayer |
| Renderers.UiKeyMeaning | renderer.js:138-169 | the highlighted key meets the engine's definition of current |
| Renderers.UiKeyIsCursor | renderer.js:138-169 | the root page and the engine highlight the same prayer |
| Renderers.UiLoopResult | renderer.js:158-169 | the row before the first prayer still ahead, wrapping to the last row, is the current one |
| Renderers.SaveButtonGradient | renderer.js:308-320 | a known theme gets its own gradient and any other theme the navy one |
| Renderers.DarkThemeIsNavy | renderer.js:318 | the dark theme, which has no gradient of its own, gets the navy gradient |
| Dates.GregorianDate | src/renderer/js/dateUtils.js:9-12 | the readable date when present, else the empty text |
| Dates.HijriDateFields | src/renderer/js/dateUtils.js:21-26 | the Hijri text splits back into day, month name in the page language, year and era |
| Dates.FirstMatch | src/renderer/js/utils/dateUtils.js:95-99 | an occasion whose eve is the day, or none exactly when no occasion matches |
| Dates.EventTiers | src/renderer/js/utils/dateUtils.js:90-111 | an annual occasion wins; otherwise days 12 to 14 give the white days, then Sunday and Wednesday give weekly fasting, else nothing |
| Dates.OccasionKeysDistinct | src/renderer/js/utils/dateUtils.js:47-81 | no annual occasion shares a key with the white days or weekly fasting |
| Dates.EventsDisjoint | src/renderer/js/utils/dateUtils.js:47-81 | no two annual occasions are announced on the same day |
| Dates.EventsOnTheEve | src/renderer/js/utils/dateUtils.js:47-81 | each occasion is announced on the day or days before it |
| Dates.OccasionExamples | src/renderer/js/utils/dateUtils.js:49-99 | 29 Dhu al-Hijja announces the new year; 9 Muharram announces Ashura |
| Dates.QuietMonth | src/renderer/js/utils/dateUtils.js:47-99 | a month with no occasion's eve never matches an annual occasion |
| Dates.QuietMonthDays | src/renderer/js/utils/dateUtils.js:102-111 | in such a month, days 12 to 14 announce the white days and no other day announces anything without a weekday |
| Dates.NumericArguments | src/renderer/js/utils/dateUtils.js:91-92 | numbers given as text are parsed back to the same numbers |
| Settings.FieldText | src/renderer/js/settings.js:234-235 | a missing field reads as the empty text |
| Settings.AtLeastOne | src/renderer/js/settings.js:254-255 | the parsed number when it is at least 1, else the fallback: always at least 1 |
| Settings.SaveSettings | src/renderer/js/settings.js:228-270 | the save is refused exactly when the trimmed city or country is empty; otherwise the trimmed location and the pending theme are stored, each numeric field on the page is stored as its `parseInt` value when at least 1, else 30 (Athkar interval) or 5 (minutes before a prayer), each toggle on the page is stored, a missing control keeps its setting and the Adhan settings are untouched |
| Settings.SavedLocationIsTrimmed | src/renderer/js/settings.js:234-247 | the stored city and country have no surrounding blanks |
| Settings.InitialPreAdhan | src/renderer/js/settings.js:46-47 | the reminder is checked unless it was switched off, and the minutes field shows the lead time the engine uses |
| Settings.InitThenSaveMinutes | src/renderer/js/settings.js:46-47 | saving the form as shown stores the lead time the engine was already using |
| Settings.SavedThresholdPositive | src/renderer/js/settings.js:266-270 | a saved reminder lead time is at least one minute |
| HijriCalendar.DashKeyInjective | src/renderer/js/hijriCalendar.js:140 | different months give different cache keys |
| HijriCalendar.NavigateMonth | src/renderer/js/hijriCalendar.js:75-84 | the month stays within 1 to 12, rolling the year over |
| HijriCalendar.NavigateStep | src/renderer/js/hijriCalendar.js:75-84 | each step moves exactly one month forward or back |
| HijriCalendar.NavigateRoundTrip | src/renderer/js/hijriCalendar.js:75-87 | next then previous, or previous then next, returns to the same month |
| HijriCalendar.MonthTable | src/renderer/js/hijriCalendar.js:6-13 | exactly English, Arabic and French have a table, of twelve names |
| HijriCalendar.PageLanguage | src/renderer/js/hijriCalendar.js:112 | the saved language when set, else English |
| HijriCalendar.MonthLabel | src/renderer/js/hijriCalendar.js:115-118 | a label exactly for months 1 to 12, from the page language's table when there is one |
| HijriCalendar.MonthLabelFallback | src/renderer/js/hijriCalendar.js:115-118 | a language without a table falls back to English |
| HijriCalendar.GenerateMonth | src/renderer/js/hijriCalendar.js:157-179 | the month keeps the first weekday and has thirty days numbered 1 to 30 in order, each with its Gregorian date |
| HijriCalendar.GetMonthData | src/renderer/js/hijriCalendar.js:139-187 | a cached month is served without a fetch; a reply with code 200 is generated and stored; a failure stores nothing and gives null |
| HijriCalendar.LoadedOnce | src/renderer/js/hijriCalendar.js:140-181 | a loaded month is served unchanged from the cache whatever the server says later |
| HijriCalendar.OtherMonthsKept | src/renderer/js/hijriCalendar.js:181 | loading one month leaves every other month's cache entry as it was |
| HijriCalendar.EventAt | src/renderer/js/hijriCalendar.js:227 | an occasion with that key, or none exactly when no occasion has it |
| HijriCalendar.EventAtNumbers | src/renderer/js/hijriCalendar.js:226-229 | the text keys of the day name the same occasion as its numbers |
| HijriCalendar.RamadanSpecialDays | src/renderer/js/hijriCalendar.js:16-27 | in Ramadan the special days are the first and the 27th |
| HijriCalendar.DayCells | src/renderer/js/hijriCalendar.js:210-237 | one cell per day, in order, with its numbers, marked exactly on special days |
| HijriCalendar.Grid | src/renderer/js/hijriCalendar.js:193-237 | the first weekday's blanks come before one day cell per day |
| HijriCalendar.GeneratedGrid | src/renderer/js/hijriCalendar.js:200-229 | a generated month shows its leading blanks then days 1 to 30, each marked exactly when an occasion falls on it |
| HijriCalendar.OfMonthIsInMonth | src/renderer/js/hijriCalendar.js:262-263 | every listed occasion belongs to the month |
| HijriCalendar.InMonthMembers | src/renderer/js/hijriCalendar.js:262-263 | every occasion of the month is listed |
| HijriCalendar.KeyDay | src/renderer/js/hijriCalendar.js:265-266 | the `month-day` key splits in two and its second part parses back as the day |
| HijriCalendar.SortByDay | src/renderer/js/hijriCalendar.js:264-268 | sorting by day gives a permutation of the occasions |
| HijriCalendar.SortByDaySorted | src/renderer/js/hijriCalendar.js:264-268 | the sorted list is in day order |
| HijriCalendar.SortByDayKeepsSorted | src/renderer/js/hijriCalendar.js:264-268 | a list already in day order comes back unchanged |
| HijriCalendar.MonthEventsListing | src/renderer/js/hijriCalendar.js:262-268 | the sidebar lists exactly the month's occasions, by day |
| HijriCalendar.MuharramListing | src/renderer/js/hijriCalendar.js:262-268 | Muharram lists the new year and then Ashura |
| HijriCalendar.EventName | src/renderer/js/hijriCalendar.js:281-288 | the page language's name when it is Arabic or French and has one; English in every other case, an empty Arabic or French name included |
| HijriCalendar.TableOrdered | src/renderer/js/hijriCalendar.js:16-27 | the occasion table is ordered by month, then day |
| Athkar.AthkarIdInjective | src/renderer/js/athkarUI.js:282 | different sections and positions give different counter ids |
| Athkar.Target | src/renderer/js/athkarUI.js:287 | the item's count when it parses to a non-zero number, else 1 |
| Athkar.Increment | src/renderer/js/athkarUI.js:376-391 | a press counts one below the target and nothing at it; only that counter changes |
| Athkar.Reset | src/renderer/js/athkarUI.js:393-396 | the counter goes back to zero and the others stay |
| Athkar.ResetAll | src/renderer/js/athkarUI.js:436 | every counter reads zero |
| Athkar.LoadState | src/renderer/js/athkarUI.js:152-163 | nothing saved keeps the counters; an unreadable save starts from no counters; otherwise the saved counters are used |
| Athkar.IncrementNBounded | src/renderer/js/athkarUI.js:383-384 | after n presses the count is the smaller of n and the target |
| Athkar.CompletedIsStable | src/renderer/js/athkarUI.js:383-390 | a completed counter does not change on further presses |
| Athkar.CompletesAfterTarget | src/renderer/js/athkarUI.js:376-391 | a fresh counter is complete after exactly the target number of presses, not before |
| Athkar.ResetThenIncrement | src/renderer/js/athkarUI.js:393-396 | after a reset, one press counts one |
| RamadanUI.TargetHijriYear | src/renderer/js/ramadanUI.js:103-109 | no year when the year text does not parse; after Ramadan's month, next year; otherwise this year |
| RamadanUI.TargetIsNextRamadan | src/renderer/js/ramadanUI.js:103-109 | the chosen Ramadan is not in the past and is less than a year ahead |
| RamadanUI.ToggleDay | src/renderer/js/ramadanUI.js:290-308 | a tracked day is removed and an untracked one is added |
| RamadanUI.Without | src/renderer/js/ramadanUI.js:295 | drops every copy of the day and keeps every other day; a list without the day is unchanged |
| RamadanUI.WithoutAppend | src/renderer/js/ramadanUI.js:295 | filtering a joined list is joining the filtered parts, so order and repetitions of the other days are kept |
| RamadanUI.WithoutOne | src/renderer/js/ramadanUI.js:295 | on a single day the filter drops exactly the removed day |
| RamadanUI.ToggleDayTwice | src/renderer/js/ramadanUI.js:290-308 | toggling twice restores membership of every day |
| RamadanUI.WithoutAppended | src/renderer/js/ramadanUI.js:295-301 | removing a day just added restores the list |
| RamadanUI.Flags | src/renderer/js/ramadanUI.js:164-180 | a day is done when tracked, special on the 15th, and the Night of Power on the 27th |
| RamadanUI.FlagsOfDay | src/renderer/js/ramadanUI.js:164-180 | no day has both marks, and pressing a day flips its done mark alone |
| RamadanUI.TodayKeyParts | src/renderer/js/ramadanUI.js:198-201 | today's key is the zero-padded day, month and year |
| RamadanUI.FindDay | src/renderer/js/ramadanUI.js:203 | finds the first calendar day with that key, or none |
| RamadanUI.FormatTimeStr | src/renderer/js/ramadanUI.js:311-313 | the time text loses its time-zone suffix |
| RamadanUI.FormatTimeStrIdempotent | src/renderer/js/ramadanUI.js:311-313 | formatting twice is formatting once |
| RamadanUI.TodayCardOf | src/renderer/js/ramadanUI.js:193-247 | today's Suhoor and Iftar times exactly when today is a day of the calendar, taken from the first day that matches; otherwise, for a non-empty calendar, the first day's times when today is before its first day and "Ramadan ended" when not; no data exactly for an empty calendar |
| Ramadan.Enable | src/renderer/js/ramadan.js:131-148 | turning on sets the flag, resizes the window and loads the calendar; when already on nothing happens |
| Ramadan.Disable | src/renderer/js/ramadan.js:150-163 | turning off clears the flag and shrinks the window; when already off nothing happens |
| Ramadan.Toggle | src/renderer/js/ramadan.js:13-32 | the button flips the mode, records the manual choice and keeps the cache; switching off narrows the window to 320×540; switching on widens it to 750×540 and loads the calendar for the last known Hijri year and day, or for `gregorianYear - 579`, day 1, before any is known |
| Ramadan.ToggleTwice | src/renderer/js/ramadan.js:13-32 | two presses restore the mode and leave a manual choice of that mode |
| Ramadan.ShowPanel | src/renderer/js/ramadan.js:54-61 | the panel is shown exactly after a manual switch on, or in Ramadan without a manual choice |
| Ramadan.CountdownText | src/renderer/js/ramadan.js:123-128 | days left exactly for 1 to 60 days ahead, the greeting exactly on the day itself |
| Ramadan.UpdateCountdown | src/renderer/js/ramadan.js:39-129 | off the page or without a Hijri date nothing changes; otherwise a text is shown, the parsed Hijri year and day are recorded for the toggle, and the panel follows the month and the manual choice, which is kept |
| Ramadan.PanelStep | src/renderer/js/ramadan.js:56-74 | the mode follows the month and the manual choice; the cache stays and nothing is fetched |
| Ramadan.RamadanGreets | src/renderer/js/ramadan.js:77-80 | in Ramadan the greeting is shown, nothing is fetched and the cache stays |
| Ramadan.CountdownTarget | src/renderer/js/ramadan.js:83-87 | the fetch asks for the same Ramadan the Ramadan page counts to |
| Ramadan.CacheReused | src/renderer/js/ramadan.js:89-107 | after a successful fetch the next update in the same month fetches nothing and shows the same text |
| Ramadan.CachedUpdate | src/renderer/js/ramadan.js:89-128 | a cached start date is used without a fetch |
| Ramadan.FetchedUpdate | src/renderer/js/ramadan.js:90-99 | a successful fetch stores the start date for that year |
| Ramadan.FailedFetchUpdate | src/renderer/js/ramadan.js:93-105 | a failed or refused fetch leaves the countdown cleared and the cache unchanged |
| Ramadan.ToggleSticks | src/renderer/js/ramadan.js:13-61 | after a manual toggle, updates keep the chosen mode whatever the month |
| Ramadan.FormatDate | src/renderer/js/ramadan.js:245-252 | a text that does not split into three parts on `-` is kept as it is |
| Ramadan.FormatTodayKey | src/renderer/js/ramadan.js:245-252 | today's key formats as `DD/MM`; with a negative year the key is kept |
| Ramadan.NegativeYearParts | src/renderer/js/ramadan.js:247-251 | a negative year's minus sign splits today's key into four parts |
| Player.CurrentTrack | src/renderer/js/background-player.js:151-157 | the track at the index when it is on the list, else none |
| Player.PlayAt | src/renderer/js/background-player.js:82-95 | an index on the list plays that track; any other changes nothing |
| Player.Step | src/renderer/js/background-player.js:176-241 | only a refresh changes the tracks; only play, next and previous move the index; only a numeric volume changes the volume; unknown commands do nothing |
| Player.OnEvent | src/renderer/js/background-player.js:102-123 | play, pause and stop set the playing flag and broadcast the state; the tracks are kept |
| Player.Click | src/renderer/js/background-player.js:272-286 | the play button pauses or resumes a loaded sound without changing the state |
| Player.SameRules | src/renderer/js/background-player.js:122-286 | the next button, the next command and the end of a track take the same step; so do the previous button and command |
| Player.ValidKept | src/renderer/js/background-player.js:82-241 | the initial state is valid, and every command, event and button keeps the index at -1 or on a loaded sound |
| Player.EmptyListStill | src/renderer/js/background-player.js:83-205 | with no tracks, next and previous do nothing |
| Player.StepsLand | src/renderer/js/background-player.js:199-205 | next and previous land on the following and preceding track, wrapping around |
| Player.NextPrevInverse | src/renderer/js/background-player.js:199-205 | previous undoes next and next undoes previous |
| Player.NextNCycles | src/renderer/js/background-player.js:199-201 | pressing next as many times as there are tracks returns to the same track |
| Player.RefreshKeepsIndex | src/renderer/js/background-player.js:222-230 | a refresh to a non-empty list replaces the tracks and keeps the index |
| Player.StaleIndexAfterRefresh | src/renderer/js/background-player.js:222-230 | after a refresh to a shorter list nothing is shown as playing, and previous works only from just past the end |
| Player.InRangeKept | src/renderer/js/background-player.js:176-241 | only a refresh can take the index off the list |
| Playlist.Matching | src/renderer/js/playlist.js:79-82 | the filter keeps exactly the tracks whose title or artist contains the query |
| Playlist.MatchingAppend | src/renderer/js/playlist.js:79-82 | the filter keeps the album's order |
| Playlist.MatchingIdempotent | src/renderer/js/playlist.js:79-82 | filtering twice is filtering once |
| Playlist.FilterTracks | src/renderer/js/playlist.js:76-87 | an empty query shows the whole album; the album itself is never changed |
| Playlist.FindUrl | src/renderer/js/playlist.js:379 | the first track with that URL, or none when no track has it |
| Playlist.PlayTrack | src/renderer/js/playlist.js:376-388 | a row is played from the first album track with its URL; none is sent when no track has it |
| Playlist.ShownRowsPlay | src/renderer/js/playlist.js:76-388 | after any filter, every shown row can be played |
| Playlist.SetPlaylistIgnored | src/renderer/js/background-player.js:238-239 | the background player treats the play list message as unknown and changes nothing |
| Localized.GetLocalized | src/renderer/js/albums.js:8-13 | a plain text as it is; otherwise the page language, else English, else the first value |
| Localized.Lookup | src/renderer/js/playlist.js:11 | finds a value stored under the key, or none when the key is absent |
| Localized.ChosenFromEntries | src/renderer/js/playlist.js:7-12 | the result is one of the texts or empty, and empty exactly when no candidate text is non-empty |
| Localized.OwnLanguageFirst | src/renderer/js/playlist.js:11 | a text in the page language wins over the others |
| Albums.Matching | src/renderer/js/albums.js:185-189 | keeps exactly the albums whose localized title or artist contains the query |
| Albums.MatchingAppend | src/renderer/js/albums.js:185-189 | the filter keeps the catalogue's order |
| Albums.FilterAlbums | src/renderer/js/albums.js:180-191 | an empty query shows every album |
| Albums.CategoryOf | src/renderer/js/albums.js:202 | the localized category, or `Other` when it is empty |
| Albums.IndexOfName | src/renderer/js/albums.js:203 | finds the section with that name, or -1 when there is none |
| Albums.GroupAlbums | src/renderer/js/albums.js:200-210 | distinct section names, each holding exactly its category's albums in order, every album's category has a section, and the sections come in the order their categories first appear |
| Albums.FirstAt | src/renderer/js/albums.js:201-204 | the position of the first album of a category: that album has the category and none before it does |
| Albums.FirstAtSnoc | src/renderer/js/albums.js:201-204 | one more album keeps every category's first position, and a new category first appears at that album |
| Albums.AddToOrdered | src/renderer/js/albums.js:201-210 | `categories[cat].push(album)` keeps the keys in first-appearance order |
| Albums.AddToGroups | src/renderer/js/albums.js:201-205 | adding one album keeps the grouping correct |
| Albums.GroupAlbumsTotal | src/renderer/js/albums.js:200-205 | every album lands in exactly one section |
| Albums.DisplayAlbums | src/renderer/js/albums.js:193-211 | the empty state exactly for no albums, else the grouped sections in first-appearance order |
| TrackUtils.TitleOf | src/renderer/js/utils/trackUtils.js:23 | the file's title when truthy; else the name with every `.mp3` removed and, position by position, every underscore shown as a space and every other character kept |
| TrackUtils.StripExtension | src/renderer/js/utils/trackUtils.js:23 | removing `.mp3` from `stem.mp3` gives back `stem` whenever the stem holds no `.mp3` of its own |
| TrackUtils.TitleOfMp3Name | src/renderer/js/utils/trackUtils.js:23 | an untitled file `stem.mp3` is titled by its stem with underscores shown as spaces |
| TrackUtils.ArtistOf | src/renderer/js/utils/trackUtils.js:24 | the file's creator, else its artist, else the item's creator, else `Unknown Artist` |
| TrackUtils.Mp3Files | src/renderer/js/utils/trackUtils.js:21 | keeps exactly the files whose lower-cased name ends in `.mp3` |
| TrackUtils.Mp3FilesAppend | src/renderer/js/utils/trackUtils.js:21 | the file filter keeps the listing's order |
| TrackUtils.MapTracks | src/renderer/js/utils/trackUtils.js:22-27 | one track per file, in order |
| TrackUtils.ArchiveTracks | src/renderer/js/utils/trackUtils.js:15-27 | fails exactly when the files, server or directory are missing; otherwise lists the MP3 files as tracks |
| TrackUtils.TracksAreMp3 | src/renderer/js/utils/trackUtils.js:20-26 | every track comes from an MP3 file of the item and its URL starts at the item's base |
| TrackUtils.TitleExamples | src/renderer/js/utils/trackUtils.js:23 | `a_b.mp3` is titled `a b`, but the extension match is case-sensitive so `a_b.MP3` keeps it |
| Translations.T | src/renderer/js/translations.js:18-28 | fails exactly for a language without a table |
| Translations.OrKey | src/renderer/js/translations.js:27 | a truthy value is kept, otherwise the key |
| Translations.TFallsBack | src/renderer/js/translations.js:18-27 | a key ending on a non-empty text gives that text; a broken path or empty text gives the key |
| Translations.TNested | src/renderer/js/translations.js:20-25 | a key `a.b` reads field `b` of the object at `a` |
| Translations.DirectionOf | src/renderer/js/translations.js:31-37 | right to left exactly for Arabic |
| RootTranslations.RootT | translations.js:164-174 | an unknown language gives the key; otherwise the value found if truthy, else the key |
| RootTranslations.BreakIsWalk | translations.js:168-171 | stopping at the first missing step gives the same result as walking on |
| RootTranslations.AgreesWithDesktop | translations.js:164-174 | the web page's `section.key` finds what the desktop lookup of `key` in that section finds |
| SiteLanguage.PreferredLanguage | docs/translations.js:205-220 | a saved supported language, else the browser's supported prefix, else Arabic |
| SiteLanguage.UpdatePageLanguage | docs/translations.js:226-239 | an unsupported language changes nothing; a supported one becomes current and saved |
| SiteLanguage.ChoiceRemembered | docs/translations.js:207-233 | a language chosen on the page is the one the next visit prefers |
| SiteLanguage.BrowserExamples | docs/translations.js:213-216 | `fr-CA` gets French, and an unsupported browser with nothing saved gets Arabic |
| Asma.DecodeUnicode | src/renderer/js/asmaUI.js:10-15 | a falsy text gives the empty text |
| Asma.EscapesNeedBackslash | src/renderer/js/asmaUI.js:12-13 | a text without a backslash has no escape |
| Asma.NoBackslashUnchanged | src/renderer/js/asmaUI.js:12-14 | a text without a backslash comes back unchanged |
| Asma.DecodeEscapeAll | src/renderer/js/asmaUI.js:12-13 | decoding undoes escaping: the `\uXXXX` escapes of any text decode back to it |
| Asma.DecodeUnicodeOfEscaped | src/renderer/js/asmaUI.js:10-15 | a fully escaped text without backslashes decodes to itself |
| Asma.EscapesBeforeBackslashes | src/renderer/js/asmaUI.js:12-14 | escapes are decoded before backslashes are unescaped |
| Asma.QuoteEscapes | src/renderer/js/asmaUI.js:14 | each of the three two-character escapes loses its backslash |

## Left out

- Network requests are not modelled. The Aladhan, Hijri calendar, Ramadan
  start and Archive.org fetches are reply parameters.
- Timeouts, retries and error toasts around those requests are not modelled.
- The DOM is left out: `innerHTML`, class lists, toasts, system
  notifications and custom dialogs. Only the values the code computes for
  them are modelled.
- Howler audio is left out. The player's `playing` and volume are kept as
  plain fields; seeking, progress percentages and `broadcastTimeUpdate` are
  not modelled.
- Timers and `setInterval` are left out. Each tick is a call with the
  current `now`.
- Date arithmetic is left out. The Gregorian date of a Hijri day, the days
  until Ramadan and the weekday are function parameters or inputs.
- `toLowerCase`, `encodeURIComponent` and `JSON.parse` are left out. They
  are function parameters or already-parsed values.
- JsNumber.ToNumber: only digit strings and blank texts are converted. Any
  other text counts as NaN. For that reason the timetable requires every
  present timing to be readable.
- Adhan.Reload: stored settings with values other than true, false,
  `'silent'` or undefined are not modelled.
- Lookups in JavaScript objects do not model inherited prototype keys such
  as `constructor`.
- Translation lookups do not model the own properties of strings. In
  `value?.[part]` a key such as `t('x.length')` reads the length of a
  string value (src/renderer/js/translations.js:24, translations.js:169);
  the model finds nothing there and returns the key.
- The integer-like key ordering of JavaScript objects is not modelled.
- Albums.GroupAlbums: the section order is stated for text keys only. A
  category named like an integer (`'2'`) is placed by first appearance,
  whereas `Object.keys` would list it first.
- `setLanguage` and `getLanguage` (src/renderer/js/translations.js:9-15)
  only store and read one variable. The model passes the current language
  as a parameter instead.
- Player.PlayAt: non-integer indices are not modelled, because the
  commands carry integers.
- TrackUtils.ArchiveTracks: Archive fields that are present but are not
  texts are not modelled.
- Translations.T and RootTranslations.RootT: the literal locale tables
  (src/renderer/js/translations.js and translations.js:3-160) are not part
  of the model, so lookups such as the Arabic name of Fajr are not stated.
- Theme application (`applyTheme`, `initTheme`) only sets CSS classes and
  is left out. The save button's colour is modelled.
- HijriCalendar.DayCells: the `today` mark of a day cell is left out. It
  compares against the clock's `Date`, which the model does not read.
- The Hijri calendar's `goToToday` fetch and `updateGregorianDisplay` are
  left out. They are display code around the modelled month data.
- The Ramadan page's `Intl` month formatter and its table rendering are
  left out. Loading the calendar and today's card are modelled.
- The `adhanEnabled` flag of `prayer.js` is never read, so it is not
  modelled.
- The root page's `updateUI` countdown refresh (renderer.js:185-191) is
  modelled only by the ReferenceError it raises: `timeRemaining` is a local
  of `updateCurrentAndNextPrayer` (renderer.js:212), so the read at
  renderer.js:189 throws (Renderers.UiThrows, used by Renderers.RootLoad).
  The countdown text it would display is not modelled. This assumes no
  other script of the page declares a global `timeRemaining`.
- The merge of settings in `src/main/ipc-handlers.js` is not part of this
  model. The save is modelled on the renderer side.
