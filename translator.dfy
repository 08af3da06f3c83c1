/**
 * The `Translator` object: its options, its two caches (`_locales` and
 * `_catalogs`), the 'translation' events it emits on the stream, and the
 * stream transform that drives it.  Every operation reads the file system
 * it is given; failures that the source reports through `error` (or that
 * the file system raises underneath it) come back as a `Result`.
 */
module I18nTranslator {
  import opened I18nTypes
  import opened Strings
  import opened TokenRegex
  import opened Catalogs
  import opened Rewriting

  /** `translateCopy` for each locale, in locale order. */
  function Outcomes(locs: seq<Locale>, pattern: Pattern, copy: string,
                    cats: Result<map<Locale, Catalog>>, bookend: string): (outs: seq<Result<string>>)
    ensures |outs| == |locs|
    ensures forall i :: 0 <= i < |locs| ==> outs[i] == Rewrite(pattern, copy, cats, locs[i], bookend)
  {
    seq(|locs|, i requires 0 <= i < |locs| => Rewrite(pattern, copy, cats, locs[i], bookend))
  }

  /** The `for` loop of `translate` over the per-locale outcomes: one
      'translation' event per locale whose copy translates, in locale
      order, stopping at the first failure. */
  function FanOut(locs: seq<Locale>, outs: seq<Result<string>>): (seq<Translation>, Option<Error>)
    requires |outs| == |locs|
    decreases |locs|
  {
    if locs == [] then ([], None)
    else
      var n := |locs| - 1;
      var before := FanOut(locs[..n], outs[..n]);
      if before.1.Some? then before
      else
        match outs[n]
        case Failure(e) => (before.0, Some(e))
        case Success(t) => (before.0 + [Translation(locs[n], t)], None)
  }

  /** The events are exactly the successful translations of a prefix of
      the locales, and a failure is the outcome of the locale right after
      that prefix. */
  lemma {:induction false} FanOutMeaning(locs: seq<Locale>, outs: seq<Result<string>>)
    requires |outs| == |locs|
    ensures var r := FanOut(locs, outs);
      |r.0| <= |locs|
      && (forall i :: 0 <= i < |r.0| ==> outs[i].Success? && r.0[i] == Translation(locs[i], outs[i].value))
      && (r.1.None? ==> |r.0| == |locs|)
      && (r.1.Some? ==> |r.0| < |locs| && outs[|r.0|] == Failure(r.1.value))
    decreases |locs|
  {
    if locs != [] {
      var n := |locs| - 1;
      FanOutMeaning(locs[..n], outs[..n]);
      assert forall i :: 0 <= i < n ==> locs[..n][i] == locs[i] && outs[..n][i] == outs[i];
    }
  }

  /** Once a locale has failed, the locales after it change nothing. */
  lemma {:induction false} FanOutStops(locs: seq<Locale>, outs: seq<Result<string>>, k: nat)
    requires |outs| == |locs| && k <= |locs|
    requires FanOut(locs[..k], outs[..k]).1.Some?
    ensures FanOut(locs, outs) == FanOut(locs[..k], outs[..k])
    decreases |locs| - k
  {
    if k < |locs| {
      var n := |locs| - 1;
      assert locs[..n][..k] == locs[..k] && outs[..n][..k] == outs[..k];
      FanOutStops(locs[..n], outs[..n], k);
    } else {
      assert locs[..k] == locs && outs[..k] == outs;
    }
  }

  /** One more turn of the loop: the next outcome either ends the run with
      its failure or adds its translation. */
  lemma FanOutStep(locs: seq<Locale>, outs: seq<Result<string>>, i: nat, done: seq<Translation>)
    requires |outs| == |locs| && i < |locs|
    requires FanOut(locs[..i], outs[..i]) == (done, None)
    ensures outs[i].Success? ==>
      FanOut(locs[..i + 1], outs[..i + 1]) == (done + [Translation(locs[i], outs[i].value)], None)
    ensures outs[i].Failure? ==> FanOut(locs, outs) == (done, Some(outs[i].error))
  {
    assert locs[..i + 1][..i] == locs[..i] && outs[..i + 1][..i] == outs[..i];
    if outs[i].Failure? {
      FanOutStops(locs, outs, i + 1);
    }
  }

  /** When every locale's copy translates, one event is emitted per locale,
      in locale order, and nothing fails. */
  lemma FanOutAllSucceed(locs: seq<Locale>, outs: seq<Result<string>>)
    requires |outs| == |locs|
    requires forall i :: 0 <= i < |outs| ==> outs[i].Success?
    ensures FanOut(locs, outs).1 == None && |FanOut(locs, outs).0| == |locs|
    ensures forall i :: 0 <= i < |locs| ==> FanOut(locs, outs).0[i] == Translation(locs[i], outs[i].value)
  {
    FanOutMeaning(locs, outs);
  }

  /** What `translate(file, type)` emits and whether it fails, given both
      caches as they were before the call. */
  function TranslateSpec(cachedLocs: seq<Locale>, cachedCats: Option<map<Locale, Catalog>>, root: string,
                         fs: FileSystem, contents: string, fileType: string): (r: (seq<Translation>, Option<Error>))
    ensures GetTokenRegex(fileType).Failure? ==> r == ([], Some(UnsupportedFileType(fileType)))
    ensures GetTokenRegex(fileType).Success? && LocalesOutcome(cachedLocs, root, fs).Failure? ==>
      r == ([], Some(LocaleRootMissing(root)))
  {
    match GetTokenRegex(fileType)
    case Failure(e) => ([], Some(e))
    case Success(re) =>
      match LocalesOutcome(cachedLocs, root, fs)
      case Failure(e) => ([], Some(e))
      case Success(locs) =>
        var cats := CatalogsOutcome(cachedCats, cachedLocs, root, fs);
        FanOut(locs, Outcomes(locs, re.pattern, contents, cats, Bookend(fileType)))
  }

  /** A fresh translator that can read its locales and their catalogs emits
      one javascript translation for every locale, in directory order. */
  lemma TranslateEveryLocale(root: string, fs: FileSystem, contents: string)
    requires ListLocales(root, fs).Success?
    requires CatalogsOutcome(None, [], root, fs).Success?
    ensures TranslateSpec([], None, root, fs, contents, "javascript").1 == None
    ensures |TranslateSpec([], None, root, fs, contents, "javascript").0| == |ListLocales(root, fs).value|
    ensures forall i :: 0 <= i < |ListLocales(root, fs).value| ==>
      TranslateSpec([], None, root, fs, contents, "javascript").0[i].lang == ListLocales(root, fs).value[i]
    ensures forall i :: 0 <= i < |ListLocales(root, fs).value| ==>
      Success(TranslateSpec([], None, root, fs, contents, "javascript").0[i].translation)
        == Rewrite(GettextCall, contents, CatalogsOutcome(None, [], root, fs), ListLocales(root, fs).value[i], "'")
  {
    var locs := ListLocales(root, fs).value;
    var cats := CatalogsOutcome(None, [], root, fs);
    var out := FanOut(locs, Outcomes(locs, GettextCall, contents, cats, "'"));
    FanOutMeaning(locs, Outcomes(locs, GettextCall, contents, cats, "'"));
    if out.1.Some? {
      RewriteOutcome(contents, cats, locs[|out.0|], "'");
      assert false;
    }
  }

  /** A file without a gettext call is emitted unchanged for every locale,
      and no catalog is ever needed for it. */
  lemma TranslateWithoutCalls(cachedLocs: seq<Locale>, cachedCats: Option<map<Locale, Catalog>>,
                              root: string, fs: FileSystem, contents: string)
    requires !Contains(contents, Opener)
    requires LocalesOutcome(cachedLocs, root, fs).Success?
    ensures TranslateSpec(cachedLocs, cachedCats, root, fs, contents, "javascript").1 == None
    ensures forall t :: t in TranslateSpec(cachedLocs, cachedCats, root, fs, contents, "javascript").0 ==>
      t.translation == contents
  {
    var locs := LocalesOutcome(cachedLocs, root, fs).value;
    var cats := CatalogsOutcome(cachedCats, cachedLocs, root, fs);
    var out := FanOut(locs, Outcomes(locs, GettextCall, contents, cats, "'"));
    FanOutMeaning(locs, Outcomes(locs, GettextCall, contents, cats, "'"));
    forall l | l in locs ensures Rewrite(GettextCall, contents, cats, l, "'") == Success(contents) {
      RewriteWithoutCalls(contents, cats, l, "'");
    }
    if out.1.Some? {
      assert false;
    }
    forall t | t in out.0 ensures t.translation == contents {
      var i :| 0 <= i < |out.0| && out.0[i] == t;
      assert locs[i] in locs;
    }
  }

  class Translator {
    /** `options.localeDir`, defaulting to "locale". */
    const localeDir: string
    /** `_locales`; never set and set to an empty list behave alike. */
    var locales: seq<Locale>
    /** `_catalogs`; any object, even an empty one, counts as cached. */
    var catalogs: Option<map<Locale, Catalog>>
    /** The 'translation' events emitted on the stream so far. */
    var emitted: seq<Translation>

    /** `new Translator(options)`: `lodash.defaults` fills in the locale
        root when the options leave it undefined. */
    constructor (localeDirOption: Option<string>)
      ensures localeDir == if localeDirOption.Some? then localeDirOption.value else DefaultLocaleDir
      ensures locales == [] && catalogs == None && emitted == []
    {
      localeDir := if localeDirOption.Some? then localeDirOption.value else DefaultLocaleDir;
      locales := [];
      catalogs := None;
      emitted := [];
    }

    /** Both caches as `getCatalogs()` leaves them, starting from
        `cats0` and `locs0`. */
    ghost predicate CachesAfterLoad(cats0: Option<map<Locale, Catalog>>, locs0: seq<Locale>, fs: FileSystem)
      reads this
    {
      catalogs == CatalogsAfter(cats0, locs0, localeDir, fs)
      && locales == (if cats0.Some? then locs0 else LocalesAfter(locs0, localeDir, fs))
    }

    method GetLocales(fs: FileSystem) returns (r: Result<seq<Locale>>)
      modifies this`locales
      ensures r == LocalesOutcome(old(locales), localeDir, fs)
      ensures locales == LocalesAfter(old(locales), localeDir, fs)
    {
      if |locales| > 0 {
        return Success(locales);
      }
      if localeDir !in fs.listings {
        return Failure(LocaleRootMissing(localeDir));
      }
      locales := KeepLocales(localeDir, fs, fs.listings[localeDir]);
      r := Success(locales);
    }

    method GetCatalogs(fs: FileSystem) returns (r: Result<map<Locale, Catalog>>)
      modifies this`locales, this`catalogs
      ensures r == CatalogsOutcome(old(catalogs), old(locales), localeDir, fs)
      ensures CachesAfterLoad(old(catalogs), old(locales), fs)
    {
      if catalogs.Some? {
        return Success(catalogs.value);
      }
      var locs := GetLocales(fs);
      if locs.Failure? {
        return Failure(locs.error);
      }
      r := LoadCatalogs(localeDir, locs.value, fs);
      if r.Success? {
        catalogs := Some(r.value);
      }
    }

    method GetCatalog(fs: FileSystem, lang: Locale) returns (r: Result<Catalog>)
      modifies this`locales, this`catalogs
      ensures r == CatalogOf(CatalogsOutcome(old(catalogs), old(locales), localeDir, fs), lang)
      ensures CachesAfterLoad(old(catalogs), old(locales), fs)
    {
      var cats := GetCatalogs(fs);
      if cats.Failure? {
        return Failure(cats.error);
      }
      if lang !in cats.value {
        return Failure(CatalogMissing(lang));
      }
      r := Success(cats.value[lang]);
    }

    method LangGettext(fs: FileSystem, lang: Locale, str: string) returns (r: Result<string>)
      modifies this`locales, this`catalogs
      ensures r == Lookup(CatalogsOutcome(old(catalogs), old(locales), localeDir, fs), lang, str)
      ensures str == "" ==> catalogs == old(catalogs) && locales == old(locales)
      ensures str != "" ==> CachesAfterLoad(old(catalogs), old(locales), fs)
    {
      if str == "" {
        return Failure(EmptySourceString);
      }
      var catalog := GetCatalog(fs, lang);
      if catalog.Failure? {
        return Failure(catalog.error);
      }
      r := Success(Gettext(catalog.value, str));
    }

    /** `translateCopy(copy, lang, re, bookend)`: `exec` runs on the
        original copy while each replacement lands in the running text. */
    method TranslateCopy(fs: FileSystem, copy: string, lang: Locale, re: Matcher, bookend: string)
      returns (r: Result<string>)
      modifies this`locales, this`catalogs
      ensures r == Rewrite(re.pattern, copy, CatalogsOutcome(old(catalogs), old(locales), localeDir, fs), lang, bookend)
      ensures ReachesLookup(re.pattern, copy) ==> CachesAfterLoad(old(catalogs), old(locales), fs)
      ensures !ReachesLookup(re.pattern, copy) ==> catalogs == old(catalogs) && locales == old(locales)
    {
      ghost var cats := CatalogsOutcome(catalogs, locales, localeDir, fs);
      ghost var started := false;
      var find := Matcher(re.pattern, 0);
      var translated := copy;
      var match_, next := Exec(find, copy);
      find := next;
      while match_.Some?
        invariant find.pattern == re.pattern && find.lastIndex <= |copy|
        invariant match_.Some? && MsgId(match_.value) != "" ==> find.pattern.Global()
        invariant Resume(match_, find, copy, translated, cats, lang, bookend) == Rewrite(re.pattern, copy, cats, lang, bookend)
        invariant !started ==> catalogs == old(catalogs) && locales == old(locales)
        invariant !started ==> (match_, find) == ExecSpec(Matcher(re.pattern, 0), copy)
        invariant started ==> ReachesLookup(re.pattern, copy) && CachesAfterLoad(old(catalogs), old(locales), fs)
        invariant started ==> CatalogsOutcome(catalogs, locales, localeDir, fs) == cats
        decreases if match_.Some? then |copy| + 1 - find.lastIndex else 0
      {
        var msgid := MsgId(match_.value);
        var t := LangGettext(fs, lang, msgid);
        if t.Failure? {
          return Failure(t.error);
        }
        started := true;
        translated := ReplaceFirst(translated, match_.value.text, Quoted(bookend, t.value));
        match_, find := Exec(find, copy);
      }
      r := Success(translated);
    }

    /** `translate(file, type)`: the pattern for the file type, the locales,
        then one 'translation' event per locale. */
    method Translate(fs: FileSystem, file: SourceFile, fileType: string) returns (failure: Option<Error>)
      modifies this`locales, this`catalogs, this`emitted
      ensures var spec := TranslateSpec(old(locales), old(catalogs), localeDir, fs, file.contents, fileType);
        emitted == old(emitted) + spec.0 && failure == spec.1
      ensures locales == if GetTokenRegex(fileType).Success? then LocalesAfter(old(locales), localeDir, fs) else old(locales)
      ensures catalogs ==
        if GetTokenRegex(fileType).Success? && LocalesOutcome(old(locales), localeDir, fs).Success?
           && |LocalesOutcome(old(locales), localeDir, fs).value| > 0
           && ReachesLookup(GetTokenRegex(fileType).value.pattern, file.contents)
        then CatalogsAfter(old(catalogs), old(locales), localeDir, fs)
        else old(catalogs)
    {
      var copy := file.contents;
      var re := GetTokenRegex(fileType);
      if re.Failure? {
        return Some(re.error);
      }
      var bookend := Bookend(fileType);
      var locs := GetLocales(fs);
      if locs.Failure? {
        return Some(locs.error);
      }
      failure := TranslateEach(fs, copy, locs.value, re.value, bookend);
    }

    /** The `for` loop of `translate`, once the locales are cached. */
    method TranslateEach(fs: FileSystem, copy: string, all: seq<Locale>, re: Matcher, bookend: string)
      returns (failure: Option<Error>)
      requires locales == all
      modifies this`locales, this`catalogs, this`emitted
      ensures var out := FanOut(all, Outcomes(all, re.pattern, copy, CatalogsOutcome(old(catalogs), all, localeDir, fs), bookend));
        emitted == old(emitted) + out.0 && failure == out.1
      ensures locales == all
      ensures catalogs == if |all| > 0 && ReachesLookup(re.pattern, copy)
                          then CatalogsAfter(old(catalogs), all, localeDir, fs) else old(catalogs)
    {
      ghost var cats := CatalogsOutcome(catalogs, all, localeDir, fs);
      ghost var outs := Outcomes(all, re.pattern, copy, cats, bookend);
      ghost var done: seq<Translation> := [];
      ghost var loaded := if ReachesLookup(re.pattern, copy) then CatalogsAfter(catalogs, all, localeDir, fs) else catalogs;
      for i := 0 to |all|
        invariant locales == all
        invariant CatalogsOutcome(catalogs, locales, localeDir, fs) == cats
        invariant catalogs == if i > 0 then loaded else old(catalogs)
        invariant FanOut(all[..i], outs[..i]) == (done, None)
        invariant emitted == old(emitted) + done
      {
        var lang := all[i];
        ghost var before := catalogs;
        var translated := TranslateCopy(fs, copy, lang, re, bookend);
        LoadSettles(before, all, localeDir, fs);
        FanOutStep(all, outs, i, done);
        if translated.Failure? {
          return Some(translated.error);
        }
        var event := Translation(lang, translated.value);
        assert old(emitted) + (done + [event]) == emitted + [event];
        emitted := emitted + [event];
        done := done + [event];
      }
      assert all[..|all|] == all && outs[..|all|] == outs;
      failure := None;
    }

    /** The stream transform of `getStreamTranslator(fileType)`: every file
        is translated and then handed on unchanged; a file whose translation
        fails is not handed on. */
    method TransformFile(fs: FileSystem, file: SourceFile, fileType: string) returns (out: Option<SourceFile>)
      modifies this`locales, this`catalogs, this`emitted
      ensures var spec := TranslateSpec(old(locales), old(catalogs), localeDir, fs, file.contents, fileType);
        emitted == old(emitted) + spec.0 && out == (if spec.1.None? then Some(file) else None)
    ensures locales == if GetTokenRegex(fileType).Success? then LocalesAfter(old(locales), localeDir, fs) else old(locales)
    ensures catalogs ==
      if GetTokenRegex(fileType).Success? && LocalesOutcome(old(locales), localeDir, fs).Success?
         && |LocalesOutcome(old(locales), localeDir, fs).value| > 0
         && ReachesLookup(GetTokenRegex(fileType).value.pattern, file.contents)
      then CatalogsAfter(old(catalogs), old(locales), localeDir, fs)
      else old(catalogs)
    {
      var failure := Translate(fs, file, fileType);
      out := if failure.None? then Some(file) else None;
    }
  }
}
