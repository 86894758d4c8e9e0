/** `saveSettings` of src/renderer/js/settings.js: validation of the settings
    form and normalisation of its numeric fields, and the initial values of
    the pre-Adhan controls. */
module Settings {
  import opened Wrappers
  import opened Strings
  import opened Aladhan
  import opened Adhan
  import opened Scheduler

  /** The saved settings the form touches, and the Adhan settings it
      leaves alone. */
  datatype Stored = Stored(
    city: string,
    country: string,
    theme: string,
    athkarAlertEnabled: Option<bool>,
    athkarAlertInterval: Option<int>,
    preAdhanEnabled: Option<bool>,
    preAdhanMinutes: Option<int>,
    adhanByPrayer: Option<map<PrayerName, Mute>>)

  /** The settings as the prayer tick reads them. */
  function PrefsOf(s: Stored): (p: Prefs)
    ensures p.preAdhanMinutes == s.preAdhanMinutes && p.preAdhanEnabled == s.preAdhanEnabled
    ensures p.adhanByPrayer == s.adhanByPrayer
  {
    Prefs(s.preAdhanMinutes, s.preAdhanEnabled, s.adhanByPrayer)
  }

  /** The form's controls; `None` for a control missing from the page. The
      texts are the raw `value`s. */
  datatype Form = Form(
    cityInput: Option<string>,
    countryInput: Option<string>,
    athkarToggle: Option<bool>,
    athkarInterval: Option<string>,
    preAdhanToggle: Option<bool>,
    preAdhanMinutes: Option<string>)

  /** `input ? input.value.trim() : ''`. */
  function FieldText(input: Option<string>): (r: string)
    ensures input.None? ==> r == ""
  {
    if input.None? then "" else Trim(input.value)
  }

  /** `parseInt(text)`, replaced by `fallback` when NaN or below 1. */
  function AtLeastOne(text: string, fallback: int): (n: int)
    requires 1 <= fallback
    ensures 1 <= n
    ensures ParseInt(text).Some? && 1 <= ParseInt(text).value ==> n == ParseInt(text).value
    ensures ParseInt(text).None? || ParseInt(text).value < 1 ==> n == fallback
  {
    var parsed := ParseInt(text);
    if parsed.None? || parsed.value < 1 then fallback else parsed.value
  }

  /** Defaults of the two numeric fields. */
  const DefaultAthkarInterval: int := 30
  const DefaultPreAdhanMinutes: int := 5

  /** `saveSettings()`: `None` when the trimmed city or country is empty
      (the toast path, nothing stored); otherwise the settings with the
      location, the pending theme and each control that exists written in. */
  function SaveSettings(s: Stored, pendingTheme: string, form: Form): (r: Option<Stored>)
    ensures r.None? <==> FieldText(form.cityInput) == "" || FieldText(form.countryInput) == ""
    ensures r.Some? ==> Saved(s, pendingTheme, form, r.value)
  {
    var city := FieldText(form.cityInput);
    var country := FieldText(form.countryInput);
    if city == "" || country == "" then None
    else
      Some(Stored(
        city, country, pendingTheme,
        if form.athkarToggle.Some? then form.athkarToggle else s.athkarAlertEnabled,
        if form.athkarInterval.Some? then Some(AtLeastOne(form.athkarInterval.value, DefaultAthkarInterval)) else s.athkarAlertInterval,
        if form.preAdhanToggle.Some? then form.preAdhanToggle else s.preAdhanEnabled,
        if form.preAdhanMinutes.Some? then Some(AtLeastOne(form.preAdhanMinutes.value, DefaultPreAdhanMinutes)) else s.preAdhanMinutes,
        s.adhanByPrayer))
  }

  /** What a successful save promises: the trimmed, non-empty location and
      the pending theme are stored; a numeric field that was on the page is
      stored as its `parseInt` value when that is at least 1, else as its
      default (30 minutes between Athkar alerts, 5 minutes before a
      prayer); a missing control keeps its
      setting; the Adhan settings are untouched. */
  predicate Saved(s: Stored, pendingTheme: string, form: Form, r: Stored) {
    && r.city == FieldText(form.cityInput) && r.city != ""
    && r.country == FieldText(form.countryInput) && r.country != ""
    && r.theme == pendingTheme
    && (form.athkarToggle.Some? ==> r.athkarAlertEnabled == form.athkarToggle)
    && (form.athkarToggle.None? ==> r.athkarAlertEnabled == s.athkarAlertEnabled)
    && (form.athkarInterval.Some? ==> r.athkarAlertInterval == Some(AtLeastOne(form.athkarInterval.value, DefaultAthkarInterval)))
    && (form.athkarInterval.None? ==> r.athkarAlertInterval == s.athkarAlertInterval)
    && (form.preAdhanToggle.Some? ==> r.preAdhanEnabled == form.preAdhanToggle)
    && (form.preAdhanToggle.None? ==> r.preAdhanEnabled == s.preAdhanEnabled)
    && (form.preAdhanMinutes.Some? ==> r.preAdhanMinutes == Some(AtLeastOne(form.preAdhanMinutes.value, DefaultPreAdhanMinutes)))
    && (form.preAdhanMinutes.None? ==> r.preAdhanMinutes == s.preAdhanMinutes)
    && r.adhanByPrayer == s.adhanByPrayer
  }

  /** The trimmed location has no blank at either end, so saving it again
      stores the same text. */
  lemma SavedLocationIsTrimmed(s: Stored, pendingTheme: string, form: Form)
    requires SaveSettings(s, pendingTheme, form).Some?
    ensures var r := SaveSettings(s, pendingTheme, form).value;
      Trim(r.city) == r.city && Trim(r.country) == r.country
  {
    var r := SaveSettings(s, pendingTheme, form).value;
    TrimIdempotent(form.cityInput.value);
    TrimIdempotent(form.countryInput.value);
  }

  lemma TrimIdempotent(x: string)
    ensures Trim(Trim(x)) == Trim(x)
  {
    var t := Trim(x);
    if t != "" {
      assert !IsJsSpace(t[0]) && !IsJsSpace(t[|t| - 1]) by {
        var u := TrimStart(x);
        assert t == TrimEnd(u) && t == u[..|t|];
      }
      TrimStartNoBlank(t);
      assert TrimEnd(t) == t;
    }
  }

  /** `initPreAdhanNotification`: the toggle starts checked unless the
      setting is explicitly `false`, and the minutes field shows
      `preAdhanMinutes || 5`. */
  function InitialPreAdhan(s: Stored): (r: (bool, string))
    ensures r.0 <==> s.preAdhanEnabled != Some(false)
    ensures r.1 == IntToString(ReminderMinutes(PrefsOf(s)))
  {
    (s.preAdhanEnabled != Some(false), IntToString(ReminderMinutes(PrefsOf(s))))
  }

  /** Opening the page and saving at once turns the stored minutes into a
      valid threshold: a value of at least 1 is kept, anything else becomes
      5; the tick then reminds exactly that many minutes before a prayer. */
  lemma InitThenSaveMinutes(s: Stored, pendingTheme: string, form: Form)
    requires form.preAdhanMinutes == Some(InitialPreAdhan(s).1)
    requires SaveSettings(s, pendingTheme, form).Some?
    ensures var r := SaveSettings(s, pendingTheme, form).value;
      && r.preAdhanMinutes == Some(if s.preAdhanMinutes.Some? && 1 <= s.preAdhanMinutes.value then s.preAdhanMinutes.value else 5)
      && ReminderMinutes(PrefsOf(r)) == r.preAdhanMinutes.value
  {
    var m := ReminderMinutes(PrefsOf(s));
    ParseIntOfIntToString(m, true);
  }

  /** Whatever the form holds, once a minutes field has been saved the tick
      reminds at least one minute before a prayer. */
  lemma SavedThresholdPositive(s: Stored, pendingTheme: string, form: Form)
    requires form.preAdhanMinutes.Some? && SaveSettings(s, pendingTheme, form).Some?
    ensures 1 <= ReminderMinutes(PrefsOf(SaveSettings(s, pendingTheme, form).value))
  {
  }
}
