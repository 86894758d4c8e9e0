/** Translation lookup. The desktop app's `t` (src/renderer/js/translations.js,
    and the same function in src/renderer/js/renderer.js) walks a
    dot-separated key inside one section of the current language's table
    and falls back to the key itself. */
module Translations {
  import opened Wrappers
  import opened Strings

  /** A value of a locale table: a text or a nested object. */
  datatype Json = Str(s: string) | Obj(fields: map<string, Json>)

  /** `value?.[part]`: a missing value, a text, or an object without the
      key all give `undefined`. */
  function Member(v: Option<Json>, part: string): (r: Option<Json>)
    ensures r.Some? <==> v.Some? && v.value.Obj? && part in v.value.fields
  {
    if v.Some? && v.value.Obj? && part in v.value.fields then Some(v.value.fields[part]) else None
  }

  /** The `for (const part of parts)` loop. */
  function Walk(v: Option<Json>, parts: seq<string>): Option<Json>
    decreases |parts|
  {
    if |parts| == 0 then v else Walk(Member(v, parts[0]), parts[1..])
  }

  /** Walking a path in two pieces is walking it at once. */
  lemma {:induction false} WalkAppend(v: Option<Json>, a: seq<string>, b: seq<string>)
    ensures Walk(v, a + b) == Walk(Walk(v, a), b)
    decreases |a|
  {
    if |a| == 0 {
      assert a + b == b;
    } else {
      assert (a + b)[1..] == a[1..] + b;
      WalkAppend(Member(v, a[0]), a[1..], b);
    }
  }

  /** Once a step misses, the rest of the walk stays `undefined`. */
  lemma {:induction false} WalkFromNothing(parts: seq<string>)
    ensures Walk(None, parts) == None
    decreases |parts|
  {
    if |parts| > 0 {
      WalkFromNothing(parts[1..]);
    }
  }

  /** JavaScript truthiness of a looked-up value: objects are truthy, the
      empty text is not. */
  predicate Found(v: Option<Json>) {
    v.Some? && v.value != Str("")
  }

  /** `value || key`. */
  function OrKey(v: Option<Json>, key: string): (r: Json)
    ensures Found(v) ==> r == v.value
    ensures !Found(v) ==> r == Str(key)
  {
    if Found(v) then v.value else Str(key)
  }

  /** `t(key, section)` for the language `lang`: `translations[lang]` must
      exist (otherwise reading the section throws), then the key's parts
      are walked inside the section. */
  function T(tables: map<string, Json>, lang: string, key: string, section: string): (r: Result<Json, string>)
    ensures r.Failure? <==> lang !in tables
  {
    if lang !in tables then Failure("TypeError")
    else Success(OrKey(Walk(Member(Some(tables[lang]), section), Split(key, '.')), key))
  }

  /** The default section of `t`. */
  const DefaultSection: string := "ui"

  /** A key whose path ends on a non-empty text translates to that text; a
      key whose path breaks off anywhere, or ends on the empty text,
      translates to itself. */
  lemma TFallsBack(tables: map<string, Json>, lang: string, key: string, section: string)
    requires lang in tables
    ensures var w := Walk(Member(Some(tables[lang]), section), Split(key, '.'));
      && (w.Some? && w.value.Str? && w.value.s != "" ==> T(tables, lang, key, section) == Success(w.value))
      && (w.None? || w == Some(Str("")) ==> T(tables, lang, key, section) == Success(Str(key)))
  {
  }

  /** A key `a.b` reads field `b` of the object at `a`: splitting the key
      on its dots walks the nested objects one level per part. */
  lemma {:induction false} TNested(tables: map<string, Json>, lang: string, section: string, a: string, b: string)
    requires lang in tables && '.' !in a && '.' !in b
    ensures var w := Walk(Member(Member(Some(tables[lang]), section), a), [b]);
      T(tables, lang, a + "." + b, section) == Success(OrKey(w, a + "." + b))
  {
    assert Split(a + "." + b, '.') == [a, b] by {
      SplitConcat(a, b, '.');
      SplitNoSeparator(b, '.');
    }
  }

  /** The language state of the module: `currentLanguage`, `'en'` at
      start. */
  const InitialLanguage: string := "en"

  /** The page direction. */
  datatype Direction = Ltr | Rtl

  /** `applyLanguageDirection()`: right to left for Arabic only. */
  function DirectionOf(lang: string): (d: Direction)
    ensures d == Rtl <==> lang == "ar"
  {
    if lang == "ar" then Rtl else Ltr
  }

}

/** The web page's lookup, translations.js at the repository root: the key
    is walked from the language's table, stopping at the first missing
    step, with English as the default language. */
module RootTranslations {
  import opened Wrappers
  import opened Strings
  import opened Translations

  const DefaultLanguage: string := "en"

  /** The loop with its early `break`: once a step is `undefined` the walk
      stops. */
  function WalkBreak(v: Option<Json>, parts: seq<string>): Option<Json>
    decreases |parts|
  {
    if |parts| == 0 then v
    else
      var next := Member(v, parts[0]);
      if next.None? then None else WalkBreak(next, parts[1..])
  }

  /** The early `break` changes nothing: the result is the one of the walk
      without it. */
  lemma {:induction false} BreakIsWalk(v: Option<Json>, parts: seq<string>)
    ensures WalkBreak(v, parts) == Walk(v, parts)
    decreases |parts|
  {
    if |parts| > 0 {
      var next := Member(v, parts[0]);
      if next.None? {
        WalkFromNothing(parts[1..]);
      } else {
        BreakIsWalk(next, parts[1..]);
      }
    }
  }

  /** `t(key, lang)`: an unknown language gives `undefined` at once and so
      the key; otherwise the value found if truthy (a text or an object),
      else the key. `lang` is `None` when the argument is omitted. */
  function RootT(tables: map<string, Json>, key: string, lang: Option<string>): (r: Json)
    ensures var l := lang.GetOr(DefaultLanguage);
      l !in tables ==> r == Str(key)
    ensures var l := lang.GetOr(DefaultLanguage);
      l in tables ==> r == OrKey(Walk(Some(tables[l]), Split(key, '.')), key)
  {
    var l := lang.GetOr(DefaultLanguage);
    var start := if l in tables then Some(tables[l]) else None;
    BreakIsWalk(start, Split(key, '.'));
    WalkFromNothing(Split(key, '.'));
    OrKey(WalkBreak(start, Split(key, '.')), key)
  }

  /** The web page's lookup of `section.key` in a language it has finds
      what the desktop lookup of `key` in that section finds; the two
      differ only in the key each falls back to. */
  lemma AgreesWithDesktop(tables: map<string, Json>, lang: string, section: string, key: string)
    requires lang in tables && '.' !in section
    ensures var w := Walk(Member(Some(tables[lang]), section), Split(key, '.'));
      && Translations.T(tables, lang, key, section) == Success(OrKey(w, key))
      && RootT(tables, section + "." + key, Some(lang)) == OrKey(w, section + "." + key)
  {
    var parts := Split(key, '.');
    assert Split(section + "." + key, '.') == [section] + parts by {
      SplitConcat(section, key, '.');
    }
    WalkAppend(Some(tables[lang]), [section], parts);
    assert [section][1..] == [];
  }
}

/** The language of the project's web site, docs/translations.js. */
module SiteLanguage {
  import opened Wrappers
  import opened Strings
  import Translations

  /** The languages the site's table holds. */
  const Supported: set<string> := {"en", "fr", "ar"}

  /** `getPreferredLanguage()`: a saved, supported language; else the
      browser language's part before `-` when supported; else Arabic (the
      code's choice, although its comment speaks of English). */
  function PreferredLanguage(saved: Option<string>, browserLanguage: string): (l: string)
    ensures l in Supported
    ensures Truthy(saved) && saved.value in Supported ==> l == saved.value
    ensures !(Truthy(saved) && saved.value in Supported) && Split(browserLanguage, '-')[0] in Supported ==>
              l == Split(browserLanguage, '-')[0]
    ensures !(Truthy(saved) && saved.value in Supported) && Split(browserLanguage, '-')[0] !in Supported ==> l == "ar"
  {
    if Truthy(saved) && saved.value in Supported then saved.value
    else
      var prefix := Split(browserLanguage, '-')[0];
      if prefix in Supported then prefix else "ar"
  }

  /** The site's language state: `currentLanguage` and the saved
      `salaty-language`. */
  datatype Site = Site(current: string, saved: Option<string>)

  /** `updatePageLanguage(lang)`: an unsupported language changes nothing;
      a supported one becomes current and saved, and sets the direction. */
  function UpdatePageLanguage(site: Site, lang: string): (r: (Site, Option<Translations.Direction>))
    ensures lang !in Supported ==> r == (site, None)
    ensures lang in Supported ==> r.0 == Site(lang, Some(lang)) && r.1.Some?
    ensures r.1 == Some(Translations.Rtl) <==> lang == "ar"
  {
    if lang !in Supported then (site, None)
    else (Site(lang, Some(lang)), Some(Translations.DirectionOf(lang)))
  }

  /** A language chosen on the page is the one the next visit prefers,
      whatever the browser says. */
  lemma ChoiceRemembered(site: Site, lang: string, browserLanguage: string)
    requires lang in Supported
    ensures PreferredLanguage(UpdatePageLanguage(site, lang).0.saved, browserLanguage) == lang
  {
  }

  /** A browser set to a regional French, such as `fr-CA`, gets French;
      an unsupported one with nothing saved gets Arabic. */
  lemma BrowserExamples()
    ensures PreferredLanguage(None, "fr-CA") == "fr"
    ensures PreferredLanguage(None, "de-DE") == "ar"
  {
    assert "fr-CA" == "fr" + "-" + "CA";
    assert "de-DE" == "de" + "-" + "DE";
    BrowserPrefix("fr", "CA");
    BrowserPrefix("de", "DE");
    assert "fr" in Supported && "de" !in Supported;
  }

  lemma BrowserPrefix(lang: string, region: string)
    requires '-' !in lang
    ensures Split(lang + "-" + region, '-')[0] == lang
  {
    SplitConcat(lang, region, '-');
  }
}
