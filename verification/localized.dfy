/** `getLocalized(obj)`, written the same way in src/renderer/js/playlist.js
    and src/renderer/js/albums.js: the text of an album's title, artist or
    category in the page's language, falling back to English, then to the
    first text the object holds. */
module Localized {
  import opened Wrappers
  import opened Strings

  /** A field of the album catalogue: a plain text, `undefined`/`null`, or
      an object of texts keyed by language code, in its keys' order. */
  datatype Text = Plain(s: string) | Absent | ByLanguage(entries: seq<(string, string)>)

  /** `obj[key]`: the text stored under the key. */
  function Lookup(entries: seq<(string, string)>, key: string): (r: Option<string>)
    ensures r.None? <==> forall i :: 0 <= i < |entries| ==> entries[i].0 != key
    ensures r.Some? ==> exists i :: 0 <= i < |entries| && entries[i] == (key, r.value)
  {
    if |entries| == 0 then None
    else if entries[0].0 == key then Some(entries[0].1)
    else
      var r := Lookup(entries[1..], key);
      assert forall i :: 1 <= i < |entries| ==> entries[i] == entries[1..][i - 1];
      r
  }

  /** `Object.values(obj)[0]`. */
  function FirstValue(entries: seq<(string, string)>): Option<string> {
    if |entries| == 0 then None else Some(entries[0].1)
  }

  /** `getLocalized(obj)` for the page language `lang`. */
  function GetLocalized(t: Text, lang: string): (r: string)
    ensures t.Plain? ==> r == t.s
    ensures t.Absent? ==> r == ""
    ensures t.ByLanguage? ==> Chosen(t.entries, lang, r)
  {
    match t
    case Plain(s) => s
    case Absent => ""
    case ByLanguage(entries) =>
      Or(Lookup(entries, lang), Or(Lookup(entries, "en"), Or(FirstValue(entries), "")))
  }

  /** The choice among an object's texts: the page language's when it is a
      non-empty text, else English's, else the first value's, else the
      empty text. */
  predicate Chosen(entries: seq<(string, string)>, lang: string, r: string) {
    var own, en, first := Lookup(entries, lang), Lookup(entries, "en"), FirstValue(entries);
    && (Truthy(own) ==> r == own.value)
    && (!Truthy(own) && Truthy(en) ==> r == en.value)
    && (!Truthy(own) && !Truthy(en) && Truthy(first) ==> r == first.value)
    && (!Truthy(own) && !Truthy(en) && !Truthy(first) ==> r == "")
  }

  /** The result of an object is one of its texts, or the empty text; it is
      empty exactly when none of the three candidates is a non-empty text. */
  lemma ChosenFromEntries(entries: seq<(string, string)>, lang: string)
    ensures var r := GetLocalized(ByLanguage(entries), lang);
      && (r == "" || exists i :: 0 <= i < |entries| && entries[i].1 == r)
      && (r == "" <==> !Truthy(Lookup(entries, lang)) && !Truthy(Lookup(entries, "en")) && !Truthy(FirstValue(entries)))
  {
  }

  /** An object with a text in the page language shows it, whatever else it
      holds; one with only an English text shows that in any language. */
  lemma OwnLanguageFirst(entries: seq<(string, string)>, lang: string, s: string)
    requires s != ""
    ensures GetLocalized(ByLanguage([(lang, s)] + entries), lang) == s
    ensures lang != "en" ==> GetLocalized(ByLanguage([("en", s)]), lang) == s
  {
  }
}
