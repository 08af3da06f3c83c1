/**
 * Where the translator finds its locales and their message catalogs:
 * the sub-directories of the locale root whose name does not mention
 * "template", and `<root>/<lang>/LC_MESSAGES/messages.po` inside each.
 *
 * These functions compute from the caches' previous contents and the file
 * system; the class in translator.dfy holds the caches themselves.
 */
module Catalogs {
  import opened I18nTypes
  import opened Strings

  const DefaultLocaleDir: string := "locale"

  /** `isLocale(file)`: not a template and a directory under the root. */
  predicate IsLocale(root: string, fs: FileSystem, name: string)
    ensures IsLocale(root, fs, name) <==>
      (forall k :: !OccursAt(name, "template", k)) && root + "/" + name in fs.listings
  {
    !Contains(name, "template") && root + "/" + name in fs.listings
  }

  /** `lodash.filter(entries, isLocale)`. */
  function KeepLocales(root: string, fs: FileSystem, names: seq<string>): (r: seq<Locale>)
    ensures forall x :: x in r <==> x in names && IsLocale(root, fs, x)
    ensures |r| <= |names|
  {
    if names == [] then []
    else if IsLocale(root, fs, names[0]) then [names[0]] + KeepLocales(root, fs, names[1..])
    else KeepLocales(root, fs, names[1..])
  }

  /** The filter keeps the directory order: filtering a listing in two
      parts and joining the results is filtering the whole listing. */
  lemma {:induction false} KeepLocalesAppend(root: string, fs: FileSystem, a: seq<string>, b: seq<string>)
    ensures KeepLocales(root, fs, a + b) == KeepLocales(root, fs, a) + KeepLocales(root, fs, b)
    decreases |a|
  {
    if a != [] {
      assert (a + b)[0] == a[0] && (a + b)[1..] == a[1..] + b;
      KeepLocalesAppend(root, fs, a[1..], b);
    } else {
      assert a + b == b;
    }
  }

  /** Reading the locale root afresh; a missing root is the exception
      `readdirSync` raises. */
  function ListLocales(root: string, fs: FileSystem): (r: Result<seq<Locale>>)
    ensures r.Success? <==> root in fs.listings
    ensures r.Success? ==> forall x :: x in r.value <==> x in fs.listings[root] && IsLocale(root, fs, x)
    ensures r.Failure? ==> r.error == LocaleRootMissing(root)
  {
    if root !in fs.listings then Failure(LocaleRootMissing(root))
    else Success(KeepLocales(root, fs, fs.listings[root]))
  }

  /** `getLocales()` given the cached list: a non-empty cache is returned
      as it is, an empty one is recomputed. */
  function LocalesOutcome(cached: seq<Locale>, root: string, fs: FileSystem): (r: Result<seq<Locale>>)
    ensures |cached| > 0 ==> r == Success(cached)
    ensures |cached| == 0 ==> r == ListLocales(root, fs)
  {
    if |cached| > 0 then Success(cached) else ListLocales(root, fs)
  }

  /** The locale cache after `getLocales()`: the outcome when there is one,
      the previous cache when reading the root raised. */
  function LocalesAfter(cached: seq<Locale>, root: string, fs: FileSystem): (r: seq<Locale>)
    ensures LocalesOutcome(cached, root, fs).Success? ==> r == LocalesOutcome(cached, root, fs).value
    ensures LocalesOutcome(cached, root, fs).Failure? ==> r == cached && |r| == 0
  {
    match LocalesOutcome(cached, root, fs)
    case Success(l) => l
    case Failure(_) => cached
  }

  /** Once a non-empty list is cached, every later call answers the same,
      whatever the file system then holds. */
  lemma LocalesSettle(cached: seq<Locale>, root: string, fs: FileSystem, later: FileSystem)
    requires LocalesOutcome(cached, root, fs).Success?
    requires |LocalesOutcome(cached, root, fs).value| > 0
    ensures LocalesOutcome(LocalesAfter(cached, root, fs), root, later) == LocalesOutcome(cached, root, fs)
  {
  }

  function PoPath(root: string, lang: Locale): (p: string)
    ensures |p| == |root| + |lang| + 25
    ensures p[..|root| + 1] == root + "/" && p[|root| + 1..|root| + 1 + |lang|] == lang
    ensures p[|root| + 1 + |lang|..] == "/LC_MESSAGES/messages.po"
  {
    root + "/" + lang + "/LC_MESSAGES/messages.po"
  }

  /** A catalog path determines its locale, so distinct locales read
      distinct catalog files. */
  lemma PoPathInjective(root: string, a: Locale, b: Locale)
    requires PoPath(root, a) == PoPath(root, b)
    ensures a == b
  {
    assert |a| == |b|;
    assert a == PoPath(root, b)[|root| + 1..|root| + 1 + |b|];
  }

  /** The position of the first locale whose catalog cannot be read, or
      |locs| when all of them can. */
  function FirstUnreadable(root: string, locs: seq<Locale>, fs: FileSystem): (k: nat)
    ensures k <= |locs|
    ensures k < |locs| ==> PoPath(root, locs[k]) !in fs.poFiles
    ensures forall j :: 0 <= j < k ==> PoPath(root, locs[j]) in fs.poFiles
  {
    if locs == [] || PoPath(root, locs[0]) !in fs.poFiles then 0
    else 1 + FirstUnreadable(root, locs[1..], fs)
  }

  /** `lodash.zipObject(locales, lodash.map(locales, parseMessages))`: every
      catalog is read in locale order and the first unreadable one raises. */
  function LoadCatalogs(root: string, locs: seq<Locale>, fs: FileSystem): (r: Result<map<Locale, Catalog>>)
    ensures r.Success? <==> forall l :: l in locs ==> PoPath(root, l) in fs.poFiles
    ensures r.Success? ==> forall l :: l in r.value <==> l in locs
    ensures r.Success? ==> forall l :: l in locs ==> r.value[l] == fs.poFiles[PoPath(root, l)]
    ensures r.Failure? ==> FirstUnreadable(root, locs, fs) < |locs|
    ensures r.Failure? ==> r.error == CatalogUnreadable(PoPath(root, locs[FirstUnreadable(root, locs, fs)]))
  {
    if locs == [] then Success(map[])
    else
      var path := PoPath(root, locs[0]);
      if path !in fs.poFiles then Failure(CatalogUnreadable(path))
      else
        match LoadCatalogs(root, locs[1..], fs)
        case Failure(e) => Failure(e)
        case Success(rest) =>
          assert forall l :: l in locs <==> l == locs[0] || l in locs[1..];
          Success(rest[locs[0] := fs.poFiles[path]])
  }

  /** `getCatalogs()` given both caches: any cached object, even an empty
      one, is returned as it is; otherwise the locales come from
      `getLocales()` and their catalogs are loaded. */
  function CatalogsOutcome(cachedCats: Option<map<Locale, Catalog>>, cachedLocs: seq<Locale>,
                           root: string, fs: FileSystem): (r: Result<map<Locale, Catalog>>)
    ensures cachedCats.Some? ==> r == Success(cachedCats.value)
    ensures cachedCats.None? && LocalesOutcome(cachedLocs, root, fs).Failure? ==>
      r == Failure(LocalesOutcome(cachedLocs, root, fs).error)
    ensures cachedCats.None? && LocalesOutcome(cachedLocs, root, fs).Success? ==>
      r == LoadCatalogs(root, LocalesOutcome(cachedLocs, root, fs).value, fs)
  {
    if cachedCats.Some? then Success(cachedCats.value)
    else
      var locs :- LocalesOutcome(cachedLocs, root, fs);
      LoadCatalogs(root, locs, fs)
  }

  /** The catalog cache after `getCatalogs()`: set once loading succeeds. */
  function CatalogsAfter(cachedCats: Option<map<Locale, Catalog>>, cachedLocs: seq<Locale>,
                         root: string, fs: FileSystem): (r: Option<map<Locale, Catalog>>)
    ensures cachedCats.Some? ==> r == cachedCats
    ensures cachedCats.None? ==> (r.Some? <==> CatalogsOutcome(cachedCats, cachedLocs, root, fs).Success?)
    ensures r.Some? ==> Success(r.value) == CatalogsOutcome(cachedCats, cachedLocs, root, fs)
  {
    if cachedCats.Some? then cachedCats
    else
      match CatalogsOutcome(cachedCats, cachedLocs, root, fs)
      case Success(c) => Some(c)
      case Failure(_) => None
  }

  /** Loading settles the caches: asked again with the same file system,
      the caches a load leaves behind give the same answer and stay as
      they are. */
  lemma LoadSettles(cats: Option<map<Locale, Catalog>>, locs: seq<Locale>, root: string, fs: FileSystem)
    ensures var cats' := CatalogsAfter(cats, locs, root, fs);
      var locs' := if cats.Some? then locs else LocalesAfter(locs, root, fs);
      CatalogsOutcome(cats', locs', root, fs) == CatalogsOutcome(cats, locs, root, fs)
      && CatalogsAfter(cats', locs', root, fs) == cats'
      && (cats'.None? ==> LocalesAfter(locs', root, fs) == locs')
  {
    if cats.None? && LocalesOutcome(locs, root, fs).Success? {
      var l := LocalesOutcome(locs, root, fs).value;
      assert LocalesOutcome(l, root, fs) == Success(l);
    }
  }

  /** Loaded catalogs cover exactly the locales they were loaded for, so a
      lookup for any of those locales finds its catalog. */
  lemma CatalogsCoverLocales(cachedLocs: seq<Locale>, root: string, fs: FileSystem, lang: Locale)
    requires LocalesOutcome(cachedLocs, root, fs).Success?
    requires lang in LocalesOutcome(cachedLocs, root, fs).value
    requires CatalogsOutcome(None, cachedLocs, root, fs).Success?
    ensures lang in CatalogsOutcome(None, cachedLocs, root, fs).value
    ensures CatalogsOutcome(None, cachedLocs, root, fs).value[lang] == fs.poFiles[PoPath(root, lang)]
  {
  }
}
