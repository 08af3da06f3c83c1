/**
 * What `translateCopy` computes for one locale: every token the RegExp finds
 * in the original copy is looked up through `langGettext` and the first
 * occurrence of its text in the evolving translation is replaced by the
 * translated string between two bookends.
 *
 * The catalogs are passed in as the outcome of loading them
 * (`Result<map<Locale, Catalog>>`), so that these functions stay free of the
 * translator's caches; the class in translator.dfy ties them together.
 */
module Rewriting {
  import opened I18nTypes
  import opened Strings
  import opened TokenRegex

  /** The lookup inside one catalog: the first msgstr form when the msgid is
      present and that form is non-empty, otherwise the source string. */
  function Gettext(catalog: Catalog, str: string): (r: string)
    ensures r == str || (str in catalog && |catalog[str]| > 0 && r == catalog[str][0])
    ensures str in catalog && |catalog[str]| > 0 && catalog[str][0] != "" ==> r == catalog[str][0]
    ensures r == "" ==> str == ""
  {
    if str in catalog && |catalog[str]| > 0 && catalog[str][0] != "" then catalog[str][0] else str
  }

  /** `getCatalog(lang)` given the outcome of loading the catalogs: a
      locale without an entry is an error. */
  function CatalogOf(cats: Result<map<Locale, Catalog>>, lang: Locale): (r: Result<Catalog>)
    ensures r.Success? <==> cats.Success? && lang in cats.value
    ensures r.Success? ==> r.value == cats.value[lang]
    ensures cats.Failure? ==> r == Failure(cats.error)
    ensures cats.Success? && lang !in cats.value ==> r == Failure(CatalogMissing(lang))
  {
    var all :- cats;
    if lang in all then Success(all[lang]) else Failure(CatalogMissing(lang))
  }

  /** `langGettext(lang, str)` given the outcome of loading the catalogs.
      The empty msgid is refused before any catalog is consulted. */
  function Lookup(cats: Result<map<Locale, Catalog>>, lang: Locale, str: string): (r: Result<string>)
    ensures r.Success? <==> str != "" && cats.Success? && lang in cats.value
    ensures r.Success? ==> r.value == Gettext(cats.value[lang], str) && r.value != ""
    ensures str == "" ==> r == Failure(EmptySourceString)
    ensures str != "" && r.Failure? ==> r == Failure(CatalogOf(cats, lang).error)
  {
    if str == "" then Failure(EmptySourceString)
    else
      var catalog :- CatalogOf(cats, lang);
      Success(Gettext(catalog, str))
  }

  /** The text a token is replaced by. */
  function Quoted(bookend: string, t: string): (r: string)
    ensures |r| == |t| + 2 * |bookend|
    ensures r[..|bookend|] == bookend && r[|bookend|..|bookend| + |t|] == t && r[|bookend| + |t|..] == bookend
  {
    bookend + t + bookend
  }

  /** The body of the `while (match)` loop and everything after it: `m` is the
      current match, `mt` the RegExp after the `exec` that produced it and
      `translated` the text so far.  Only a global RegExp can get past the
      lookup, and it advances `lastIndex` on each match, so this ends. */
  function Resume(m: Option<Match>, mt: Matcher, copy: string, translated: string,
                  cats: Result<map<Locale, Catalog>>, lang: Locale, bookend: string): (r: Result<string>)
    requires mt.lastIndex <= |copy|
    requires m.Some? && MsgId(m.value) != "" ==> mt.pattern.Global()
    ensures m.None? ==> r == Success(translated)
    ensures m.Some? && Lookup(cats, lang, MsgId(m.value)).Failure? ==>
      r == Failure(Lookup(cats, lang, MsgId(m.value)).error)
    decreases if m.Some? then |copy| + 1 - mt.lastIndex else 0
  {
    match m
    case None => Success(translated)
    case Some(hit) =>
      var t :- Lookup(cats, lang, MsgId(hit));
      var next := ExecSpec(mt, copy);
      Resume(next.0, next.1, copy, ReplaceFirst(translated, hit.text, Quoted(bookend, t)), cats, lang, bookend)
  }

  /** `translateCopy(copy, lang, re, bookend)`: a fresh RegExp with the
      pattern of `re`, a first `exec`, then the loop. */
  function Rewrite(pattern: Pattern, copy: string, cats: Result<map<Locale, Catalog>>,
                   lang: Locale, bookend: string): (r: Result<string>)
  {
    var first := ExecSpec(Matcher(pattern, 0), copy);
    Resume(first.0, first.1, copy, copy, cats, lang, bookend)
  }

  /** Whether translating `copy` consults the catalogs at all: the first
      `exec` finds a token with a non-empty msgid. */
  predicate ReachesLookup(pattern: Pattern, copy: string) {
    var first := ExecSpec(Matcher(pattern, 0), copy);
    first.0.Some? && MsgId(first.0.value) != ""
  }

  /** A copy that never reaches a lookup comes out the same whatever the
      catalogs are. */
  lemma RewriteWithoutLookup(pattern: Pattern, copy: string, cats: Result<map<Locale, Catalog>>,
                             other: Result<map<Locale, Catalog>>, lang: Locale, bookend: string)
    requires !ReachesLookup(pattern, copy)
    ensures Rewrite(pattern, copy, cats, lang, bookend) == Rewrite(pattern, copy, other, lang, bookend)
    ensures Rewrite(pattern, copy, cats, lang, bookend).Success? ==>
      Rewrite(pattern, copy, cats, lang, bookend).value == copy
  {
  }

  /** Reference definition: look up the tokens of `ms` in order, replacing
      each one's first occurrence in the running text. */
  function ReplaceEach(ms: seq<Match>, translated: string, cats: Result<map<Locale, Catalog>>,
                       lang: Locale, bookend: string): (r: Result<string>)
    ensures ms == [] ==> r == Success(translated)
    ensures r.Success? ==> forall k :: 0 <= k < |ms| ==> Lookup(cats, lang, MsgId(ms[k])).Success?
    ensures r.Failure? ==> exists k :: 0 <= k < |ms| && Lookup(cats, lang, MsgId(ms[k])) == Failure(r.error)
    decreases |ms|
  {
    if ms == [] then Success(translated)
    else
      var t :- Lookup(cats, lang, MsgId(ms[0]));
      ReplaceEach(ms[1..], ReplaceFirst(translated, ms[0].text, Quoted(bookend, t)), cats, lang, bookend)
  }

  /** Resuming a global RegExp at `lastIndex == k` does the same work as
      replacing, in order, every match the RegExp enumerates from k. */
  lemma {:induction false} ResumeIsReplaceEach(copy: string, k: nat, translated: string,
                                               cats: Result<map<Locale, Catalog>>, lang: Locale, bookend: string)
    requires k <= |copy|
    ensures var next := ExecSpec(Matcher(GettextCall, k), copy);
      Resume(next.0, next.1, copy, translated, cats, lang, bookend)
        == ReplaceEach(AllMatches(copy, k), translated, cats, lang, bookend)
    decreases |copy| - k
  {
    var next := ExecSpec(Matcher(GettextCall, k), copy);
    match FirstMatchFrom(copy, k)
    case None =>
    case Some(hit) =>
      assert next == (Some(hit), Matcher(GettextCall, hit.End()));
      var ms := AllMatches(copy, k);
      assert ms[0] == hit && ms[1..] == AllMatches(copy, hit.End());
      var t := Lookup(cats, lang, MsgId(hit));
      if t.Success? {
        ResumeIsReplaceEach(copy, hit.End(), ReplaceFirst(translated, hit.text, Quoted(bookend, t.value)),
                            cats, lang, bookend);
      }
  }

  /** For the javascript pattern the `exec` loop replaces exactly the
      enumerated matches, in source order. */
  lemma RewriteIsReplaceEach(copy: string, cats: Result<map<Locale, Catalog>>, lang: Locale, bookend: string)
    ensures Rewrite(GettextCall, copy, cats, lang, bookend)
         == ReplaceEach(AllMatches(copy, 0), copy, cats, lang, bookend)
  {
    ResumeIsReplaceEach(copy, 0, copy, cats, lang, bookend);
  }

  /** With only genuine matches to look up (their msgids are never empty),
      the fold fails exactly when there is a token and no catalog for lang,
      and then with the loading error or CatalogMissing. */
  lemma {:induction false} ReplaceEachOutcome(s: string, from: nat, ms: seq<Match>, translated: string,
                                              cats: Result<map<Locale, Catalog>>, lang: Locale, bookend: string)
    requires Genuine(s, from, ms)
    ensures ReplaceEach(ms, translated, cats, lang, bookend).Success?
        <==> ms == [] || (cats.Success? && lang in cats.value)
    ensures ms != [] && cats.Failure? ==> ReplaceEach(ms, translated, cats, lang, bookend) == Failure(cats.error)
    ensures ms != [] && cats.Success? && lang !in cats.value ==>
      ReplaceEach(ms, translated, cats, lang, bookend) == Failure(CatalogMissing(lang))
    decreases |ms|
  {
    if ms != [] {
      MatchGroups(s, ms[0].index);
      var t := Lookup(cats, lang, MsgId(ms[0]));
      if t.Success? {
        assert Genuine(s, from, ms[1..]) by {
          forall k | 0 <= k < |ms[1..]| ensures ms[1..][k] == ms[k + 1] {}
        }
        ReplaceEachOutcome(s, from, ms[1..], ReplaceFirst(translated, ms[0].text, Quoted(bookend, t.value)),
                           cats, lang, bookend);
      }
    }
  }

  /** A javascript copy is translated unless it holds a gettext call and the
      catalogs cannot be loaded or have no entry for lang. */
  lemma RewriteOutcome(copy: string, cats: Result<map<Locale, Catalog>>, lang: Locale, bookend: string)
    ensures Rewrite(GettextCall, copy, cats, lang, bookend).Success?
        <==> AllMatches(copy, 0) == [] || (cats.Success? && lang in cats.value)
    ensures AllMatches(copy, 0) != [] && cats.Failure? ==>
      Rewrite(GettextCall, copy, cats, lang, bookend) == Failure(cats.error)
    ensures AllMatches(copy, 0) != [] && cats.Success? && lang !in cats.value ==>
      Rewrite(GettextCall, copy, cats, lang, bookend) == Failure(CatalogMissing(lang))
  {
    RewriteIsReplaceEach(copy, cats, lang, bookend);
    AllMatchesSound(copy, 0);
    ReplaceEachOutcome(copy, 0, AllMatches(copy, 0), copy, cats, lang, bookend);
  }

  /** A copy without the text `gettext(` comes back unchanged, whatever the
      catalogs, since no token can start anywhere. */
  lemma RewriteWithoutCalls(copy: string, cats: Result<map<Locale, Catalog>>, lang: Locale, bookend: string)
    requires !Contains(copy, Opener)
    ensures Rewrite(GettextCall, copy, cats, lang, bookend) == Success(copy)
  {
    var first := FirstMatchFrom(copy, 0);
    if first.Some? {
      MatchAtSound(copy, first.value.index);
      assert OccursAt(copy, Opener, first.value.index);
    }
  }

  /** The handlebars placeholder pattern has no capture group: a copy that
      contains `todo` fails on the empty msgid before any catalog is read,
      any other copy comes back unchanged. */
  lemma RewritePlaceholder(copy: string, cats: Result<map<Locale, Catalog>>, lang: Locale, bookend: string)
    ensures Rewrite(TodoPlaceholder, copy, cats, lang, bookend)
         == if Contains(copy, "todo") then Failure(EmptySourceString) else Success(copy)
  {
  }
}
