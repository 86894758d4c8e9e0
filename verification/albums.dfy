/** The album catalogue of src/renderer/js/albums.js: the search filter and
    the grouping of the shown albums by category. `lang` is the page
    language and `lower` stands for `toLowerCase`. */
module Albums {
  import opened Strings
  import opened Localized

  /** An album as the catalogue lists it (the fields the page reads). */
  datatype Album = Album(title: Text, artist: Text, category: Text)

  /** The search test on the localized title and artist. */
  predicate Matches(a: Album, query: string, lang: string, lower: string -> string) {
    Contains(lower(GetLocalized(a.title, lang)), lower(query))
    || Contains(lower(GetLocalized(a.artist, lang)), lower(query))
  }

  /** `audioAlbums.filter(...)` with the search test. */
  function Matching(albums: seq<Album>, query: string, lang: string, lower: string -> string): (r: seq<Album>)
    ensures forall a :: a in r <==> a in albums && Matches(a, query, lang, lower)
    ensures |r| <= |albums|
  {
    if |albums| == 0 then []
    else if Matches(albums[0], query, lang, lower) then [albums[0]] + Matching(albums[1..], query, lang, lower)
    else Matching(albums[1..], query, lang, lower)
  }

  /** The filter keeps the catalogue's order. */
  lemma {:induction false} MatchingAppend(a: seq<Album>, b: seq<Album>, query: string, lang: string, lower: string -> string)
    ensures Matching(a + b, query, lang, lower) == Matching(a, query, lang, lower) + Matching(b, query, lang, lower)
  {
    if |a| > 0 {
      assert (a + b)[1..] == a[1..] + b;
      MatchingAppend(a[1..], b, query, lang, lower);
    } else {
      assert a + b == b;
    }
  }

  /** `filterAlbums(query)`: the albums handed to `displayAlbums`, all of
      them for an empty query. */
  function FilterAlbums(albums: seq<Album>, query: string, lang: string, lower: string -> string): (r: seq<Album>)
    ensures query == "" ==> r == albums
    ensures query != "" ==> forall a :: a in r <==> a in albums && Matches(a, query, lang, lower)
  {
    if query == "" then albums else Matching(albums, query, lang, lower)
  }

  /** `getLocalized(album.category) || 'Other'`. */
  function CategoryOf(a: Album, lang: string): (c: string)
    ensures c != ""
    ensures GetLocalized(a.category, lang) != "" ==> c == GetLocalized(a.category, lang)
  {
    var c := GetLocalized(a.category, lang);
    if c == "" then "Other" else c
  }

  /** A section of the page: a category name and its albums. */
  datatype Group = Group(name: string, albums: seq<Album>)

  /** The albums of one category, in the catalogue's order. */
  function InCategory(albums: seq<Album>, lang: string, name: string): seq<Album>
    decreases |albums|
  {
    if |albums| == 0 then []
    else
      var last := albums[|albums| - 1];
      InCategory(albums[..|albums| - 1], lang, name) + (if CategoryOf(last, lang) == name then [last] else [])
  }

  /** The category names of the sections, in order. */
  function Names(groups: seq<Group>): (r: seq<string>)
    ensures |r| == |groups|
    ensures forall i :: 0 <= i < |groups| ==> r[i] == groups[i].name
  {
    if |groups| == 0 then [] else [groups[0].name] + Names(groups[1..])
  }

  /** What the grouping promises: distinct names, one for each category
      that occurs, and under each name exactly the albums of that category
      in the catalogue's order. */
  predicate GroupedBy(albums: seq<Album>, lang: string, groups: seq<Group>) {
    && DistinctNames(groups)
    && HoldCategories(albums, lang, groups)
    && NonEmpty(groups)
    && Covers(albums, lang, groups)
  }

  predicate NonEmpty(groups: seq<Group>) {
    forall i :: 0 <= i < |groups| ==> groups[i].albums != []
  }

  predicate DistinctNames(groups: seq<Group>) {
    forall i, j :: 0 <= i < j < |groups| ==> groups[i].name != groups[j].name
  }

  predicate HoldCategories(albums: seq<Album>, lang: string, groups: seq<Group>) {
    forall i :: 0 <= i < |groups| ==> groups[i].albums == InCategory(albums, lang, groups[i].name)
  }

  predicate Covers(albums: seq<Album>, lang: string, groups: seq<Group>) {
    forall k :: 0 <= k < |albums| ==> CategoryOf(albums[k], lang) in Names(groups)
  }

  /** The position of the first album of a category, or the length of the
      list when no album has it. */
  function FirstAt(albums: seq<Album>, lang: string, name: string): (k: nat)
    ensures k <= |albums|
    ensures k < |albums| ==> CategoryOf(albums[k], lang) == name
    ensures forall j :: 0 <= j < k ==> CategoryOf(albums[j], lang) != name
    decreases |albums|
  {
    if |albums| == 0 then 0
    else if CategoryOf(albums[0], lang) == name then 0
    else 1 + FirstAt(albums[1..], lang, name)
  }

  /** The order of `Object.keys(categories)` for text keys: a section comes
      after every section whose category appeared earlier in the list. */
  predicate InFirstOrder(albums: seq<Album>, lang: string, groups: seq<Group>) {
    forall i, j :: 0 <= i < j < |groups| ==> FirstAt(albums, lang, groups[i].name) < FirstAt(albums, lang, groups[j].name)
  }

  /** The position of a section name. */
  function IndexOfName(groups: seq<Group>, name: string): (r: int)
    ensures -1 <= r < |groups|
    ensures r == -1 <==> name !in Names(groups)
    ensures 0 <= r ==> groups[r].name == name
  {
    if |groups| == 0 then -1
    else if groups[0].name == name then 0
    else
      var r := IndexOfName(groups[1..], name);
      assert Names(groups) == [groups[0].name] + Names(groups[1..]);
      if r == -1 then -1 else r + 1
  }

  /** `categories[cat].push(album)`, creating the section on first use. */
  function AddTo(groups: seq<Group>, a: Album, lang: string): seq<Group> {
    var name := CategoryOf(a, lang);
    var i := IndexOfName(groups, name);
    if i == -1 then groups + [Group(name, [a])]
    else groups[i := Group(name, groups[i].albums + [a])]
  }

  /** The `categories` object `displayAlbums` builds: one group per
      category, each holding its albums in their original order, the
      groups in the order their categories first appear. */
  function GroupAlbums(albums: seq<Album>, lang: string): (groups: seq<Group>)
    ensures GroupedBy(albums, lang, groups)
    ensures InFirstOrder(albums, lang, groups)
    decreases |albums|
  {
    if |albums| == 0 then []
    else
      var init, last := albums[..|albums| - 1], albums[|albums| - 1];
      var g := GroupAlbums(init, lang);
      GroupStep(albums, lang, g);
      AddTo(g, last, lang)
  }

  /** Grouping the last album into a grouping of the others groups the
      whole list, in first-appearance order. */
  lemma GroupStep(albums: seq<Album>, lang: string, g: seq<Group>)
    requires 0 < |albums|
    requires GroupedBy(albums[..|albums| - 1], lang, g) && InFirstOrder(albums[..|albums| - 1], lang, g)
    ensures GroupedBy(albums, lang, AddTo(g, albums[|albums| - 1], lang))
    ensures InFirstOrder(albums, lang, AddTo(g, albums[|albums| - 1], lang))
  {
    var init, last := albums[..|albums| - 1], albums[|albums| - 1];
    assert init + [last] == albums;
    AddToGroups(init, last, lang, g);
    AddToOrdered(init, last, lang, g);
  }

  /** A section that holds an album names a category that occurs. */
  lemma HeldOccurs(s: seq<Album>, lang: string, name: string)
    requires InCategory(s, lang, name) != []
    ensures FirstAt(s, lang, name) < |s|
  {
    if FirstAt(s, lang, name) == |s| {
      AbsentCategory(s, lang, name);
    }
  }

  /** One more album at the end keeps every first position already taken,
      and gives a new category the position of that album. */
  lemma FirstAtSnoc(s: seq<Album>, a: Album, lang: string, name: string)
    ensures FirstAt(s + [a], lang, name)
            == if FirstAt(s, lang, name) < |s| then FirstAt(s, lang, name)
               else if CategoryOf(a, lang) == name then |s|
               else |s| + 1
  {
    assert (s + [a])[|s|] == a;
    assert forall j :: 0 <= j < |s| ==> (s + [a])[j] == s[j];
  }

  /** Adding one album keeps the sections in first-appearance order. */
  lemma AddToOrdered(s: seq<Album>, a: Album, lang: string, g: seq<Group>)
    requires GroupedBy(s, lang, g) && InFirstOrder(s, lang, g)
    ensures InFirstOrder(s + [a], lang, AddTo(g, a, lang))
  {
    var name := CategoryOf(a, lang);
    var i := IndexOfName(g, name);
    KeptFirsts(s, a, lang, g);
    if i == -1 {
      NewFirst(s, a, lang, g);
      OrderAppended(s, s + [a], lang, g, Group(name, [a]));
    } else {
      OrderUpdated(s, s + [a], lang, g, i, Group(name, g[i].albums + [a]));
    }
  }

  /** A new section whose category appears after every other section's
      comes last. */
  lemma OrderAppended(s: seq<Album>, t: seq<Album>, lang: string, g: seq<Group>, x: Group)
    requires InFirstOrder(s, lang, g)
    requires forall k :: 0 <= k < |g| ==> FirstAt(t, lang, g[k].name) == FirstAt(s, lang, g[k].name) < |s|
    requires FirstAt(t, lang, x.name) == |s|
    ensures InFirstOrder(t, lang, g + [x])
  {
    var g' := g + [x];
    forall p, q | 0 <= p < q < |g'|
      ensures FirstAt(t, lang, g'[p].name) < FirstAt(t, lang, g'[q].name)
    {
      assert g'[p] == g[p];
      if q < |g| {
        assert g'[q] == g[q];
      }
    }
  }

  /** Growing a section under the same name keeps the order. */
  lemma OrderUpdated(s: seq<Album>, t: seq<Album>, lang: string, g: seq<Group>, i: int, x: Group)
    requires 0 <= i < |g| && x.name == g[i].name
    requires InFirstOrder(s, lang, g)
    requires forall k :: 0 <= k < |g| ==> FirstAt(t, lang, g[k].name) == FirstAt(s, lang, g[k].name)
    ensures InFirstOrder(t, lang, g[i := x])
  {
    var g' := g[i := x];
    forall p, q | 0 <= p < q < |g'|
      ensures FirstAt(t, lang, g'[p].name) < FirstAt(t, lang, g'[q].name)
    {
      assert g'[p].name == g[p].name && g'[q].name == g[q].name;
    }
  }

  /** The sections of the shorter list keep their first positions, all
      inside it. */
  lemma KeptFirsts(s: seq<Album>, a: Album, lang: string, g: seq<Group>)
    requires HoldCategories(s, lang, g) && NonEmpty(g)
    ensures forall k :: 0 <= k < |g| ==> FirstAt(s + [a], lang, g[k].name) == FirstAt(s, lang, g[k].name) < |s|
  {
    forall k | 0 <= k < |g|
      ensures FirstAt(s + [a], lang, g[k].name) == FirstAt(s, lang, g[k].name) < |s|
    {
      HeldOccurs(s, lang, g[k].name);
      FirstAtSnoc(s, a, lang, g[k].name);
    }
  }

  /** A category without a section first appears with the new album. */
  lemma NewFirst(s: seq<Album>, a: Album, lang: string, g: seq<Group>)
    requires Covers(s, lang, g) && CategoryOf(a, lang) !in Names(g)
    ensures FirstAt(s + [a], lang, CategoryOf(a, lang)) == |s|
  {
    FirstAtSnoc(s, a, lang, CategoryOf(a, lang));
  }

  /** Adding one album to a grouping of the albums before it gives a
      grouping of the longer list. */
  lemma AddToGroups(s: seq<Album>, a: Album, lang: string, g: seq<Group>)
    requires GroupedBy(s, lang, g)
    ensures GroupedBy(s + [a], lang, AddTo(g, a, lang))
  {
    var g' := AddTo(g, a, lang);
    assert DistinctNames(g') by { AddToDistinct(g, a, lang); }
    assert HoldCategories(s + [a], lang, g') by { AddToHolds(s, a, lang, g); }
    assert Covers(s + [a], lang, g') by { AddToCovers(s, a, lang, g); }
    assert NonEmpty(g') by { AddToNonEmpty(g, a, lang); }
  }

  lemma AddToNonEmpty(g: seq<Group>, a: Album, lang: string)
    requires NonEmpty(g)
    ensures NonEmpty(AddTo(g, a, lang))
  {
  }

  lemma AddToDistinct(g: seq<Group>, a: Album, lang: string)
    requires DistinctNames(g)
    ensures DistinctNames(AddTo(g, a, lang))
  {
    var name := CategoryOf(a, lang);
    if IndexOfName(g, name) == -1 {
      forall k | 0 <= k < |g| ensures g[k].name != name {
        assert g[k].name == Names(g)[k];
      }
    }
  }

  /** `InCategory` of a list with one more album at the end. */
  lemma InCategorySnoc(s: seq<Album>, a: Album, lang: string, name: string)
    ensures InCategory(s + [a], lang, name) == InCategory(s, lang, name) + (if CategoryOf(a, lang) == name then [a] else [])
  {
    assert (s + [a])[..|s + [a]| - 1] == s;
  }

  lemma AddToHolds(s: seq<Album>, a: Album, lang: string, g: seq<Group>)
    requires GroupedBy(s, lang, g)
    ensures HoldCategories(s + [a], lang, AddTo(g, a, lang))
  {
    var name := CategoryOf(a, lang);
    var i := IndexOfName(g, name);
    var g' := AddTo(g, a, lang);
    forall k | 0 <= k < |g'|
      ensures g'[k].albums == InCategory(s + [a], lang, g'[k].name)
    {
      InCategorySnoc(s, a, lang, g'[k].name);
      if k < |g| && k != i {
        assert g[k].name != name by {
          if i != -1 {
            assert g[i].name == name;
          } else {
            assert g[k].name == Names(g)[k];
          }
        }
      } else if k == |g| {
        AbsentCategory(s, lang, name);
      }
    }
  }

  lemma AddToCovers(s: seq<Album>, a: Album, lang: string, g: seq<Group>)
    requires Covers(s, lang, g)
    ensures Covers(s + [a], lang, AddTo(g, a, lang))
  {
    var s' := s + [a];
    var name := CategoryOf(a, lang);
    var i := IndexOfName(g, name);
    var g' := AddTo(g, a, lang);
    forall k | 0 <= k < |s'|
      ensures CategoryOf(s'[k], lang) in Names(g')
    {
      if k < |s| {
        assert s'[k] == s[k];
        var j := IndexOfName(g, CategoryOf(s[k], lang));
        assert g'[j].name == CategoryOf(s[k], lang);
        assert Names(g')[j] == g'[j].name;
      } else {
        assert Names(g')[if i == -1 then |g| else i] == name;
      }
    }
  }

  /** A category no album has collects nothing. */
  lemma {:induction false} AbsentCategory(s: seq<Album>, lang: string, name: string)
    requires forall k :: 0 <= k < |s| ==> CategoryOf(s[k], lang) != name
    ensures InCategory(s, lang, name) == []
    decreases |s|
  {
    if |s| > 0 {
      AbsentCategory(s[..|s| - 1], lang, name);
    }
  }

  /** The sizes of all sections together. */
  function Total(groups: seq<Group>): nat {
    if |groups| == 0 then 0 else |groups[0].albums| + Total(groups[1..])
  }

  /** Every album lands in exactly one section: the sections hold as many
      albums as the list. */
  lemma {:induction false} GroupAlbumsTotal(albums: seq<Album>, lang: string)
    ensures Total(GroupAlbums(albums, lang)) == |albums|
    decreases |albums|
  {
    if |albums| > 0 {
      var init := albums[..|albums| - 1];
      var a := albums[|albums| - 1];
      var g := GroupAlbums(init, lang);
      GroupAlbumsTotal(init, lang);
      var i := IndexOfName(g, CategoryOf(a, lang));
      if i == -1 {
        TotalAppend(g, Group(CategoryOf(a, lang), [a]));
      } else {
        TotalUpdate(g, i, Group(CategoryOf(a, lang), g[i].albums + [a]));
      }
    }
  }

  lemma {:induction false} TotalAppend(g: seq<Group>, x: Group)
    ensures Total(g + [x]) == Total(g) + |x.albums|
  {
    if |g| > 0 {
      assert (g + [x])[1..] == g[1..] + [x];
      TotalAppend(g[1..], x);
    }
  }

  lemma {:induction false} TotalUpdate(g: seq<Group>, i: nat, x: Group)
    requires i < |g|
    ensures Total(g[i := x]) == Total(g) - |g[i].albums| + |x.albums|
  {
    if i > 0 {
      assert g[i := x][1..] == g[1..][i - 1 := x];
      TotalUpdate(g[1..], i - 1, x);
    }
  }

  /** What `displayAlbums` shows: the empty state, or the sections. */
  datatype Display = EmptyState | Sections(groups: seq<Group>)

  function DisplayAlbums(albums: seq<Album>, lang: string): (d: Display)
    ensures d.EmptyState? <==> |albums| == 0
    ensures d.Sections? ==> 0 < |d.groups| && GroupedBy(albums, lang, d.groups) && InFirstOrder(albums, lang, d.groups)
  {
    if |albums| == 0 then EmptyState
    else
      var g := GroupAlbums(albums, lang);
      assert CategoryOf(albums[0], lang) in Names(g);
      Sections(g)
  }
}
