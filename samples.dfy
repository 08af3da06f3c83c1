/**
 * Worked instances of the model on the inputs the repository's own tests
 * use: the sample string for the javascript pattern, the French lookup, a
 * whole file translated for one locale, and a locale root with a template
 * directory in it.
 */
module Samples {
  import opened I18nTypes
  import opened Strings
  import opened TokenRegex
  import opened Rewriting
  import opened Catalogs
  import opened I18nTranslator

  /** Nowhere in [a, b) can the pattern start when that stretch has no 'g'. */
  lemma NoOpenerIn(s: string, a: nat, b: nat)
    requires a <= b <= |s| && 'g' !in s[a..b]
    ensures forall j :: a <= j < b ==> !OccursAt(s, Opener, j)
  {
    forall j | a <= j < b ensures !OccursAt(s, Opener, j) {
      assert s[a..b][j - a] == s[j] != 'g';
      if j + 8 <= |s| {
        assert s[j..j + 8][0] == s[j];
      }
    }
  }

  /** Scanning skips a stretch where the pattern cannot start. */
  lemma {:induction false} FirstMatchSkips(s: string, a: nat, b: nat)
    requires a <= b <= |s|
    requires forall j :: a <= j < b ==> !OccursAt(s, Opener, j)
    ensures FirstMatchFrom(s, a) == FirstMatchFrom(s, b)
    decreases b - a
  {
    if a < b {
      if MatchAt(s, a).Some? {
        MatchAtSound(s, a);
        assert OccursAt(s, Opener, a);
      }
      FirstMatchSkips(s, a + 1, b);
    }
  }

  /** A call found at the start of a stretch t of s, whose trailing spaces
      end where s has no further space, is what the scan finds there. */
  lemma FoundIn(s: string, off: nat, t: string, h: Hit)
    requires off + |t| <= |s| && s[off..off + |t|] == t
    requires IsMarker(t, 0, h)
    requires off + h.end == |s| || !IsSpace(s[off + h.end])
    ensures MatchAt(s, off) == Some(Shift(h, off))
  {
    forall k | off <= k < off + |t| ensures s[k] == t[k - off] {
      assert s[off..off + |t|][k - off] == s[k];
    }
    assert s[off..off + 8] == t[0..8];
    MatchAtExact(s, off, Shift(h, off));
  }

  /** The hit `h` of a stretch, moved to where the stretch sits. */
  function Shift(h: Hit, off: nat): (r: Hit)
    ensures r.quote == h.quote && r.capStart == off + h.capStart && r.capEnd == off + h.capEnd
    ensures r.close == off + h.close && r.end == off + h.end
  {
    Hit(h.quote, off + h.capStart, off + h.capEnd, off + h.close, off + h.end)
  }

  /** The two halves of a joined string. */
  lemma Halves(a: string, b: string)
    ensures (a + b)[..|a|] == a && (a + b)[|a|..] == b
  {
  }

  /** A slice inside a prefix is that slice of the prefix. */
  lemma InPrefix(s: string, i: nat, j: nat, k: nat)
    requires i <= j <= k <= |s|
    ensures s[i..j] == s[..k][i..j]
  {
  }

  // The sample string of the javascript pattern's unit test, joined part
  // by part as the test joins it.
  const Part1: string := "gettext('Should Capture');"
  const Part2: string := "gettext(\"This too\");"
  const Part3: string := "noop();"
  const Part4: string := "get text(\"Syntax Error\")"
  const Part5: string := "gettext(    'Much space'    )\n"
  const Part6: string := "gettext(   \"Such space\"    )\n\n\n"
  const Upto2: string := Part1 + Part2
  const Upto3: string := Upto2 + Part3
  const Upto4: string := Upto3 + Part4
  const Upto5: string := Upto4 + Part5
  const Sample: string := Upto5 + Part6

  /** Where each part sits in the sample. */
  lemma SampleParts()
    ensures |Part1| == 26 && |Upto2| == 46 && |Upto3| == 53 && |Upto4| == 77 && |Upto5| == 107 && |Sample| == 138
    ensures Sample[..26] == Part1 && Sample[26..46] == Part2 && Sample[46..53] == Part3
    ensures Sample[53..77] == Part4 && Sample[77..107] == Part5 && Sample[107..] == Part6
  {
    Halves(Upto5, Part6);
    Halves(Upto4, Part5);
    Halves(Upto3, Part4);
    Halves(Upto2, Part3);
    Halves(Part1, Part2);
    InPrefix(Sample, 77, 107, 107);
    InPrefix(Sample, 53, 77, 107);
    InPrefix(Upto5, 53, 77, 77);
    InPrefix(Sample, 46, 53, 107);
    InPrefix(Upto5, 46, 53, 77);
    InPrefix(Upto4, 46, 53, 53);
    InPrefix(Sample, 26, 46, 107);
    InPrefix(Upto5, 26, 46, 77);
    InPrefix(Upto4, 26, 46, 53);
    InPrefix(Upto3, 26, 46, 46);
    InPrefix(Sample, 0, 26, 107);
    InPrefix(Upto5, 0, 26, 77);
    InPrefix(Upto4, 0, 26, 53);
    InPrefix(Upto3, 0, 26, 46);
  }

  lemma PartAt1() ensures |Sample| == 138 && Sample[0..26] == Part1 { SampleParts(); }
  lemma PartAt2() ensures |Sample| == 138 && Sample[26..46] == Part2 { SampleParts(); }
  lemma PartAt3() ensures |Sample| == 138 && Sample[46..53] == Part3 { SampleParts(); }
  lemma PartAt4() ensures |Sample| == 138 && Sample[53..77] == Part4 { SampleParts(); }
  lemma PartAt5() ensures |Sample| == 138 && Sample[77..107] == Part5 { SampleParts(); }
  lemma PartAt6() ensures |Sample| == 138 && Sample[107..138] == Part6 { SampleParts(); }

  // Where the calls sit in their own parts: quote, capture, closing
  // parenthesis, end.
  const Hit1: Hit := Hit('\'', 9, 23, 24, 25)
  const Hit2: Hit := Hit('"', 9, 17, 18, 19)
  const Hit5: Hit := Hit('\'', 13, 23, 28, 30)
  const Hit6: Hit := Hit('"', 12, 22, 27, 31)

  lemma CallInPart1() ensures IsMarker(Part1, 0, Hit1) {}
  lemma CallInPart2() ensures IsMarker(Part2, 0, Hit2) {}
  lemma CallInPart5() ensures IsMarker(Part5, 0, Hit5) {}
  lemma CallInPart6() ensures IsMarker(Part6, 0, Hit6) {}

  /** A stretch of s lying inside a part: its characters are the part's. */
  lemma InPart(s: string, off: nat, t: string, i: nat, j: nat)
    requires off + |t| <= |s| && s[off..off + |t|] == t && i <= j <= |t|
    ensures s[off + i..off + j] == t[i..j]
  {
    forall k | 0 <= k < j - i ensures s[off + i..off + j][k] == t[i..j][k] {
      assert s[off..off + |t|][i + k] == s[off + i + k];
    }
  }

  lemma SampleAt0()
    ensures |Sample| == 138
    ensures MatchAt(Sample, 0) == Some(Hit1)
  {
    PartAt1();
    CallInPart1();
    InPart(Sample, 0, Part1, 25, 26);
    FoundIn(Sample, 0, Part1, Hit1);
  }

  lemma SampleAt26()
    ensures |Sample| == 138
    ensures MatchAt(Sample, 26) == Some(Shift(Hit2, 26))
  {
    PartAt2();
    CallInPart2();
    InPart(Sample, 26, Part2, 19, 20);
    FoundIn(Sample, 26, Part2, Hit2);
  }

  lemma SampleAt77()
    ensures |Sample| == 138
    ensures MatchAt(Sample, 77) == Some(Shift(Hit5, 77))
  {
    PartAt5();
    PartAt6();
    CallInPart5();
    InPart(Sample, 107, Part6, 0, 1);
    FoundIn(Sample, 77, Part5, Hit5);
  }

  lemma SampleAt107()
    ensures |Sample| == 138
    ensures MatchAt(Sample, 107) == Some(Shift(Hit6, 107))
  {
    PartAt6();
    CallInPart6();
    FoundIn(Sample, 107, Part6, Hit6);
  }

  lemma NoGInNoop() ensures 'g' !in Part2[19..] + Part3 {}
  lemma NoGInGetText() ensures 'g' !in Part4[1..] {}
  lemma SpaceInGetText() ensures Part4[3] == ' ' {}

  /** The `;` after the second call and `noop();` hold no 'g'. */
  lemma SampleNoop()
    ensures |Sample| == 138
    ensures forall j :: 45 <= j < 53 ==> !OccursAt(Sample, Opener, j)
  {
    PartAt2();
    PartAt3();
    NoGInNoop();
    InPart(Sample, 26, Part2, 19, 20);
    assert Sample[45..53] == Part2[19..] + Part3 by {
      assert Sample[45..53] == Sample[45..46] + Sample[46..53];
    }
    NoOpenerIn(Sample, 45, 53);
  }

  /** After its 'g', the misspelt `get text("Syntax Error")` holds no other. */
  lemma SampleAfterGet()
    ensures |Sample| == 138
    ensures forall j :: 54 <= j < 77 ==> !OccursAt(Sample, Opener, j)
  {
    PartAt4();
    NoGInGetText();
    InPart(Sample, 53, Part4, 1, 24);
    NoOpenerIn(Sample, 54, 77);
  }

  /** The misspelt `get text(` is no call: its fourth character is a space. */
  lemma SampleGetText()
    ensures |Sample| == 138
    ensures forall j :: 53 <= j < 77 ==> !OccursAt(Sample, Opener, j)
  {
    SampleAfterGet();
    PartAt4();
    SpaceInGetText();
    InPart(Sample, 53, Part4, 3, 4);
    assert Sample[56] == ' ';
    assert !OccursAt(Sample, Opener, 53);
  }

  /** Between the second and third calls nothing starts a call. */
  lemma SampleGap()
    ensures |Sample| == 138
    ensures forall j :: 45 <= j < 77 ==> !OccursAt(Sample, Opener, j)
  {
    SampleNoop();
    SampleGetText();
  }

  lemma SampleFrom107()
    ensures |Sample| == 138
    ensures AllMatches(Sample, 107) == [ToMatch(Sample, 107, Shift(Hit6, 107))]
  {
    SampleAt107();
  }

  lemma SampleFrom45()
    ensures |Sample| == 138
    ensures AllMatches(Sample, 45) == [ToMatch(Sample, 77, Shift(Hit5, 77))] + AllMatches(Sample, 107)
  {
    SampleAt77();
    SampleGap();
    FirstMatchSkips(Sample, 45, 77);
  }

  lemma SampleFrom25()
    ensures |Sample| == 138
    ensures AllMatches(Sample, 25) == [ToMatch(Sample, 26, Shift(Hit2, 26))] + AllMatches(Sample, 45)
  {
    PartAt1();
    SampleAt26();
    InPart(Sample, 0, Part1, 25, 26);
    NoOpenerIn(Sample, 25, 26);
    FirstMatchSkips(Sample, 25, 26);
  }

  lemma SampleFrom0()
    ensures |Sample| == 138
    ensures AllMatches(Sample, 0) == [ToMatch(Sample, 0, Hit1)] + AllMatches(Sample, 25)
  {
    SampleAt0();
  }

  /** Repeated `exec` on the sample finds the four well-formed calls, in
      order, and neither `noop()` nor `get text(...)`. */
  lemma SampleMatches()
    ensures |Sample| == 138
    ensures AllMatches(Sample, 0) == [ToMatch(Sample, 0, Hit1), ToMatch(Sample, 26, Shift(Hit2, 26)),
                                      ToMatch(Sample, 77, Shift(Hit5, 77)), ToMatch(Sample, 107, Shift(Hit6, 107))]
  {
    SampleFrom0();
    SampleFrom25();
    SampleFrom45();
    SampleFrom107();
  }

  lemma Capture1() ensures Part1[9..23] == "Should Capture" {}
  lemma Capture2() ensures Part2[9..17] == "This too" {}
  lemma Capture5() ensures Part5[13..23] == "Much space" {}
  lemma Capture6() ensures Part6[12..22] == "Such space" {}

  /** The msgids of those four calls are the quoted strings. */
  lemma SampleMsgIds()
    ensures |Sample| == 138
    ensures MsgId(ToMatch(Sample, 0, Hit1)) == "Should Capture"
    ensures MsgId(ToMatch(Sample, 26, Shift(Hit2, 26))) == "This too"
    ensures MsgId(ToMatch(Sample, 77, Shift(Hit5, 77))) == "Much space"
    ensures MsgId(ToMatch(Sample, 107, Shift(Hit6, 107))) == "Such space"
  {
    PartAt1();
    PartAt2();
    PartAt5();
    PartAt6();
    Capture1();
    Capture2();
    Capture5();
    Capture6();
    InPart(Sample, 0, Part1, 9, 23);
    InPart(Sample, 26, Part2, 9, 17);
    InPart(Sample, 77, Part5, 13, 23);
    InPart(Sample, 107, Part6, 12, 22);
  }

  // The catalogs of the test application, as far as they matter; the
  // English one leaves its entry untranslated.
  const EnPo: Catalog := map["Hello World" := [""]]
  const FrPo: Catalog := map["Hello World" := ["Bonjour tout le monde"]]
  const PtPo: Catalog := map["Hello World" := ["Olá mundo"]]
  const AppCatalogs: map<Locale, Catalog> := map["en" := EnPo, "fr" := FrPo, "pt_BR" := PtPo]

  /** `langGettext('fr', 'Hello World')` answers from the French catalog. */
  lemma FrenchLookup()
    ensures Lookup(Success(AppCatalogs), "fr", "Hello World") == Success("Bonjour tout le monde")
  {
  }

  /** An untranslated entry falls back to the msgid. */
  lemma EnglishLookup()
    ensures Lookup(Success(AppCatalogs), "en", "Hello World") == Success("Hello World")
  {
  }

  lemma PortugueseLookup()
    ensures Lookup(Success(AppCatalogs), "pt_BR", "Hello World") == Success("Olá mundo")
  {
  }

  /** A locale without a catalog is an error, not a fallback. */
  lemma UnknownLocaleLookup()
    ensures Lookup(Success(AppCatalogs), "de", "Hello World") == Failure(CatalogMissing("de"))
  {
  }

  // The script of the test application.
  const Prefix: string := "window.alert("
  const Call: string := "gettext('Hello World')"
  const Script: string := Prefix + Call + ");\n"
  const CallHit: Hit := Hit('\'', 9, 20, 21, 22)

  lemma CallInCall() ensures IsMarker(Call, 0, CallHit) {}

  lemma ScriptParts()
    ensures |Script| == 38
    ensures Script[0..13] == Prefix && Script[13..35] == Call && Script[35..38] == ");\n"
  {
  }

  lemma ScriptAt13()
    ensures |Script| == 38
    ensures MatchAt(Script, 13) == Some(Shift(CallHit, 13))
  {
    ScriptParts();
    CallInCall();
    assert Script[35] == ')';
    FoundIn(Script, 13, Call, CallHit);
  }

  lemma ScriptMatches()
    ensures |Script| == 38
    ensures AllMatches(Script, 0) == [ToMatch(Script, 13, Shift(CallHit, 13))]
  {
    ScriptParts();
    ScriptAt13();
    NoOpenerIn(Script, 0, 13);
    FirstMatchSkips(Script, 0, 13);
    NoOpenerIn(Script, 35, 38);
    FirstMatchSkips(Script, 35, 38);
  }

  /** The call's own text starts with the pattern's literal prefix. */
  lemma CallOpens() ensures Call[..8] == Opener {}

  /** `replace` finds the call at 13, where the match is: nothing before
      it starts with a 'g'. */
  lemma ScriptIndex()
    ensures IndexOf(Script, Call) == Some(13)
  {
    ScriptParts();
    assert OccursAt(Script, Call, 13);
    NoOpenerIn(Script, 0, 13);
    var k := IndexOf(Script, Call).value;
    if k < 13 {
      CallOpens();
      assert Script[k..k + 8] == Script[k..k + |Call|][..8];
      assert OccursAt(Script, Opener, k);
      assert false;
    }
  }

  lemma ScriptReplaceAny(rep: string)
    ensures ReplaceFirst(Script, Call, rep) == Prefix + rep + ");\n"
  {
    ScriptIndex();
    ScriptParts();
    var r := ReplaceFirst(Script, Call, rep);
    assert r == r[..13] + r[13..13 + |rep|] + r[13 + |rep|..];
  }

  /** The one token of the script and its msgid. */
  lemma ScriptToken()
    ensures |Script| == 38
    ensures var m := ToMatch(Script, 13, Shift(CallHit, 13));
      MsgId(m) == "Hello World" && m.text == Call
  {
    ScriptParts();
    InPart(Script, 13, Call, 9, 20);
    assert Call[9..20] == "Hello World";
  }

  /** A copy with a single token: its first occurrence is replaced by the
      quoted lookup. */
  lemma RewriteOneToken(copy: string, m: Match, cats: Result<map<Locale, Catalog>>, lang: Locale, bookend: string)
    requires AllMatches(copy, 0) == [m]
    requires Lookup(cats, lang, MsgId(m)).Success?
    ensures Rewrite(GettextCall, copy, cats, lang, bookend)
         == Success(ReplaceFirst(copy, m.text, Quoted(bookend, Lookup(cats, lang, MsgId(m)).value)))
  {
    RewriteIsReplaceEach(copy, cats, lang, bookend);
    assert [m][1..] == [];
  }

  /** Whatever a locale's lookup of "Hello World" answers, the script's
      call is replaced by that answer between single quotes. */
  lemma ScriptIn(cats: Result<map<Locale, Catalog>>, lang: Locale)
    requires Lookup(cats, lang, "Hello World").Success?
    ensures Rewrite(GettextCall, Script, cats, lang, "'")
         == Success(Prefix + Quoted("'", Lookup(cats, lang, "Hello World").value) + ");\n")
  {
    ScriptMatches();
    ScriptToken();
    RewriteOneToken(Script, ToMatch(Script, 13, Shift(CallHit, 13)), cats, lang, "'");
    ScriptReplaceAny(Quoted("'", Lookup(cats, lang, "Hello World").value));
  }

  // The three texts the test application's stream test accepts: the
  // script with its call knocked out and the translation quoted in its place.
  const InEnglish: string := Prefix + Quoted("'", "Hello World") + ");\n"
  const InFrench: string := Prefix + Quoted("'", "Bonjour tout le monde") + ");\n"
  const InPortuguese: string := Prefix + Quoted("'", "Olá mundo") + ");\n"

  /** The script of the test application comes out of the French pass
      with the call knocked out and the translation quoted in its place. */
  lemma ScriptInFrench()
    ensures Rewrite(GettextCall, Script, Success(AppCatalogs), "fr", Bookend("javascript")) == Success(InFrench)
  {
    FrenchLookup();
    ScriptIn(Success(AppCatalogs), "fr");
  }

  lemma ScriptInEnglish()
    ensures Rewrite(GettextCall, Script, Success(AppCatalogs), "en", "'") == Success(InEnglish)
  {
    EnglishLookup();
    ScriptIn(Success(AppCatalogs), "en");
  }

  lemma ScriptInPortuguese()
    ensures Rewrite(GettextCall, Script, Success(AppCatalogs), "pt_BR", "'") == Success(InPortuguese)
  {
    PortugueseLookup();
    ScriptIn(Success(AppCatalogs), "pt_BR");
  }

  /** The test application's locale root: three language directories, a
      template directory and a plain file, and a catalog in each language
      directory. */
  const App: FileSystem := FileSystem(
    map["locale" := ["en", "fr", "pt_BR", "templates", "README"],
        "locale/en" := [], "locale/fr" := [], "locale/pt_BR" := [], "locale/templates" := []],
    map[PoPath(DefaultLocaleDir, "en") := EnPo,
        PoPath(DefaultLocaleDir, "fr") := FrPo,
        PoPath(DefaultLocaleDir, "pt_BR") := PtPo])

  lemma AppEntries()
    ensures IsLocale(DefaultLocaleDir, App, "en") && IsLocale(DefaultLocaleDir, App, "fr")
    ensures IsLocale(DefaultLocaleDir, App, "pt_BR")
    ensures !IsLocale(DefaultLocaleDir, App, "templates") && !IsLocale(DefaultLocaleDir, App, "README")
  {
    assert DefaultLocaleDir + "/" + "en" == "locale/en";
    assert DefaultLocaleDir + "/" + "fr" == "locale/fr";
    assert DefaultLocaleDir + "/" + "pt_BR" == "locale/pt_BR";
    assert OccursAt("templates", "template", 0);
    assert |DefaultLocaleDir + "/" + "README"| == 13;
  }

  /** The template directory and the plain file are both dropped. */
  lemma NoLocaleAfterPt()
    ensures KeepLocales(DefaultLocaleDir, App, ["templates", "README"]) == []
  {
    AppEntries();
    var names: seq<string> := ["templates", "README"];
    assert names[1..] == ["README"] && names[1..][1..] == [];
  }

  lemma LocalesFromFr()
    ensures KeepLocales(DefaultLocaleDir, App, ["fr", "pt_BR", "templates", "README"]) == ["fr", "pt_BR"]
  {
    AppEntries();
    NoLocaleAfterPt();
    var names: seq<string> := ["fr", "pt_BR", "templates", "README"];
    assert names[1..] == ["pt_BR", "templates", "README"];
    assert names[1..][1..] == ["templates", "README"];
  }

  /** `getLocales()` under the default root keeps the three language
      directories, in order, and drops the template directory and the
      plain file. */
  lemma ThreeLocales()
    ensures ListLocales(DefaultLocaleDir, App) == Success(["en", "fr", "pt_BR"])
  {
    AppEntries();
    LocalesFromFr();
    var names := App.listings[DefaultLocaleDir];
    assert names[1..] == ["fr", "pt_BR", "templates", "README"];
    assert ["en"] + ["fr", "pt_BR"] == ["en", "fr", "pt_BR"];
  }

  /** The three catalog paths are distinct. */
  lemma AppPaths()
    ensures PoPath(DefaultLocaleDir, "en") != PoPath(DefaultLocaleDir, "fr")
    ensures |PoPath(DefaultLocaleDir, "pt_BR")| != |PoPath(DefaultLocaleDir, "en")|
    ensures |PoPath(DefaultLocaleDir, "pt_BR")| != |PoPath(DefaultLocaleDir, "fr")|
  {
    assert PoPath(DefaultLocaleDir, "en")[7] == 'e';
    assert PoPath(DefaultLocaleDir, "fr")[7] == 'f';
  }

  /** Loading three locales whose catalogs are all present. */
  lemma LoadThree(root: string, fs: FileSystem, a: Locale, b: Locale, c: Locale)
    requires PoPath(root, a) in fs.poFiles && PoPath(root, b) in fs.poFiles && PoPath(root, c) in fs.poFiles
    ensures LoadCatalogs(root, [a, b, c], fs)
         == Success(map[a := fs.poFiles[PoPath(root, a)], b := fs.poFiles[PoPath(root, b)], c := fs.poFiles[PoPath(root, c)]])
  {
    var r := LoadCatalogs(root, [a, b, c], fs);
    var m := map[a := fs.poFiles[PoPath(root, a)], b := fs.poFiles[PoPath(root, b)], c := fs.poFiles[PoPath(root, c)]];
    assert r.Success?;
    forall k ensures k in r.value <==> k in m {
      assert k in [a, b, c] <==> k == a || k == b || k == c;
    }
    assert r.value == m;
  }

  /** Each of the three catalogs is read from its own path. */
  lemma AppReads()
    ensures LoadCatalogs(DefaultLocaleDir, ["en", "fr", "pt_BR"], App) == Success(AppCatalogs)
  {
    AppPaths();
    assert App.poFiles[PoPath(DefaultLocaleDir, "en")] == EnPo;
    assert App.poFiles[PoPath(DefaultLocaleDir, "fr")] == FrPo;
    assert App.poFiles[PoPath(DefaultLocaleDir, "pt_BR")] == PtPo;
    LoadThree(DefaultLocaleDir, App, "en", "fr", "pt_BR");
  }

  /** A fresh translator lists the three locales and reads their catalogs. */
  lemma AppLoads()
    ensures CatalogsOutcome(None, [], DefaultLocaleDir, App) == Success(AppCatalogs)
  {
    ThreeLocales();
    AppReads();
  }

  /** The script translated for each locale of the application. */
  lemma AppOutcomes()
    ensures Outcomes(["en", "fr", "pt_BR"], GettextCall, Script, Success(AppCatalogs), "'")
         == [Success(InEnglish), Success(InFrench), Success(InPortuguese)]
  {
    ScriptInEnglish();
    ScriptInFrench();
    ScriptInPortuguese();
  }

  /** Three locales whose copies all translate give three events. */
  lemma FanOutThree(locs: seq<Locale>, outs: seq<Result<string>>, a: string, b: string, c: string)
    requires |locs| == 3 && outs == [Success(a), Success(b), Success(c)]
    ensures FanOut(locs, outs) == ([Translation(locs[0], a), Translation(locs[1], b), Translation(locs[2], c)], None)
  {
    FanOutAllSucceed(locs, outs);
    var r := FanOut(locs, outs).0;
    assert outs[0].value == a && outs[1].value == b && outs[2].value == c;
    assert r == [r[0], r[1], r[2]];
  }

  /** `translate` of the application's script by a fresh translator emits
      one event per locale, in locale order, with the call knocked out in
      each and no failure. */
  lemma AppTranslates()
    ensures TranslateSpec([], None, DefaultLocaleDir, App, Script, "javascript")
         == ([Translation("en", InEnglish), Translation("fr", InFrench), Translation("pt_BR", InPortuguese)], None)
  {
    ThreeLocales();
    AppLoads();
    AppOutcomes();
    FanOutThree(["en", "fr", "pt_BR"], Outcomes(["en", "fr", "pt_BR"], GettextCall, Script, Success(AppCatalogs), "'"),
                InEnglish, InFrench, InPortuguese);
  }
}
