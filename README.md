# gulp-static-i18n: the Translator, modelled in Dafny

gulp-static-i18n is a gulp plugin that builds one static copy of each
asset per locale. Its translation engine is the `Translator` object in
`lib/translator.js`. The object does four things:

- It discovers the locales: the sub-directories of a locale root whose
  name does not contain "template".
- It loads each locale's `LC_MESSAGES/messages.po` catalog.
- It scans a source file for `gettext('...')` / `gettext("...")` calls with
  a global regular expression. It replaces each call with the looked-up
  translation, quoted with the file type's "bookend".
- It emits one `{lang, translation}` event per locale, in locale order.

The model has seven modules:

- `I18nTypes` (types.dfy): failures, catalogs, the file system the engine
  reads, the emitted events.
- `Strings` (strings.dfy): the JavaScript string search and
  `String.prototype.replace` with a string needle (first occurrence only).
- `TokenRegex` (token_regex.dfy): the `TOKEN_REGEX` and `BOOKENDS` tables and
  `getTokenRegex`. It also holds a hand-written scanner for the javascript
  pattern `gettext\(\s*(?:"([^"]+)"|'([^']+)')\s*\)\s*` with `exec` and
  `lastIndex` semantics. It is proved sound, complete and unique against a
  declarative description of the pattern, and the enumeration of repeated
  `exec` calls is proved to be in order, without overlap and without misses.
- `Rewriting` (rewrite.dfy): the catalog lookup with its fallback to the
  msgid, and `translateCopy` as a function of the catalogs. It is proved
  equal to a fold that replaces every enumerated match in source order.
- `Catalogs` (catalogs.dfy): locale discovery and catalog loading as
  functions of the previous cache contents and the file system.
- `I18nTranslator` (translator.dfy): the `Translator` class. Its caches
  (`_locales`, `_catalogs`) and the emitted events are fields. Its methods
  have the source's `if` and loop structure:
  - the `while (match)` loop of `translateCopy`;
  - the `for` loop over the locales in `translate`.

  Each method is proved against the functions above.
- `Samples` (samples.dfy): the repository's own test inputs worked through
  the model:
  - the four-call sample string of the regex test;
  - the French lookup;
  - the test application's three locales and its `script.js` translated
    into each of them.

`error(msg)` throws, or emits on the stream. Both become a `Failure`
outcome, carrying one of five kinds:

- `LocaleRootMissing`
- `CatalogUnreadable`
- `CatalogMissing`
- `EmptySourceString`
- `UnsupportedFileType`

The file system is a parameter of every operation. A path is a directory
exactly when it has a listing. A readable, well-formed `messages.po` is
given by its parsed catalog.

Two details of the code that the model keeps:

- `getLocales` caches the list only when it is non-empty
  (`lib/translator.js:28`), so an empty list is recomputed on every call
  (`Catalogs.LocalesOutcome`, `Catalogs.LocalesSettle`).
- `handlebars` is registered with the pattern `/todo/`
  (`lib/translator.js:13`), so `getTokenRegex('handlebars')` succeeds
  (`Rewriting.RewritePlaceholder`).

## Model

| member | source | states |
|---|---|---|
| `Strings.IndexOfFrom` | lib/translator.js:111 | the result is the leftmost occurrence of the needle at or after `from`; when none is found there is no occurrence at all |
| `Strings.ReplaceFirst` | lib/translator.js:111 | `replace` with a string needle splices `rep` in place of the first occurrence only, keeping the text before and after it; without an occurrence the text is unchanged |
| `TokenRegex.TokenPattern` | lib/translator.js:11-14 | exactly `javascript` and `handlebars` are registered, and `javascript` is the only type with the gettext-call pattern |
| `TokenRegex.Bookend` | lib/translator.js:15-17 | javascript copies get a single-quote bookend, whichever quote the call used; every other file type gets the empty bookend (the default at line 121) |
| `TokenRegex.GetTokenRegex` | lib/translator.js:90-98 | succeeds exactly for the two registered types, with a fresh RegExp whose `lastIndex` is 0; the javascript RegExp is global; any other type fails with `UnsupportedFileType` |
| `TokenRegex.MatchAt` | lib/translator.js:12 | the pattern anchored at one index; its contract only places the parts of a hit in order, and its meaning comes from `MatchAtSound`, `MatchAtComplete` and `MatchAtExact` |
| `TokenRegex.MatchAtSound` | lib/translator.js:12 | what the scanner finds at an index is a word of the pattern: `gettext(`, spaces, a quote, a non-empty run without that quote, the same quote, spaces, `)`, and the longest run of trailing spaces |
| `TokenRegex.MatchAtComplete` | lib/translator.js:12 | whenever the pattern matches at an index, the scanner finds a match there with the same quote, capture and closing parenthesis |
| `TokenRegex.MatchAtExact` | lib/translator.js:12 | a split of the pattern with greedy trailing whitespace is exactly what the scanner returns, so the match at an index is unique |
| `TokenRegex.ToMatch` | lib/translator.js:105-109 | `match.index`, `match[0]` as the matched span, and `match[1]` set exactly for a double-quoted call and `match[2]` exactly for a single-quoted one, each holding the text between the quotes |
| `TokenRegex.MsgId` | lib/translator.js:109 | the msgid is `match[1]` when that is set and non-empty, and otherwise `match[2]`; it is always one of the groups or empty, and empty when neither group is set |
| `TokenRegex.MatchGroups` | lib/translator.js:108-109 | in every match exactly one capture group is set, it holds no quote of its kind, the msgid `match[1]`, or else `match[2]`, is that group and never empty, and `match[0]` starts with `gettext(` |
| `TokenRegex.FirstMatchFrom` | lib/translator.js:105 | the leftmost match at or after `from`: it is a real match, there is none before it, and when nothing is returned there is no match at all from `from` on |
| `TokenRegex.ExecSpec` | lib/translator.js:105 | a global `exec` returns a match that starts at or after `lastIndex` and sets `lastIndex` to its end, or resets `lastIndex` to 0 when nothing is found; the non-global placeholder leaves `lastIndex` alone; only the javascript pattern yields a non-empty msgid |
| `TokenRegex.Exec` | lib/translator.js:105 | the forward scan from `lastIndex` computes exactly `ExecSpec`: result and next RegExp state |
| `TokenRegex.AllMatches` | lib/translator.js:105-112 | the matches repeated `exec` calls return until the first miss; it has no contract of its own, and its meaning comes from `AllMatchesSound` and `AllMatchesComplete` |
| `TokenRegex.AllMatchesSound` | lib/translator.js:105-112 | the matches that repeated `exec` calls return are real matches at or after the start, in source order and without overlap |
| `TokenRegex.AllMatchesComplete` | lib/translator.js:105-112 | repeated `exec` misses nothing: every index where the pattern matches starts an enumerated match or lies inside one |
| `Rewriting.Gettext` | lib/translator.js:75-76 | the lookup answers the first msgstr when the msgid has one that is non-empty, and otherwise the msgid itself; it answers the empty string only for the empty msgid |
| `Rewriting.CatalogOf` | lib/translator.js:60-67 | the catalog of `lang` when loading succeeded and has it; a loading failure propagates; a locale without a catalog is `CatalogMissing(lang)` |
| `Rewriting.Lookup` | lib/translator.js:70-77 | `langGettext` succeeds exactly for a non-empty msgid and a locale with a catalog, answering the catalog lookup (never empty); an empty msgid fails with `EmptySourceString` before any catalog is read; other failures are those of `getCatalog` |
| `Rewriting.Quoted` | lib/translator.js:110 | the replacement is the bookend, then the translation, then the bookend again, and nothing else |
| `Rewriting.Resume` | lib/translator.js:107-114 | the loop ends with the running text when `exec` finds nothing, and stops with the lookup's failure at the first token whose lookup fails |
| `Rewriting.Rewrite` | lib/translator.js:101-115 | `translateCopy`: a fresh RegExp, a first `exec`, then the loop; it has no contract of its own, and its meaning comes from `RewriteIsReplaceEach`, `RewriteOutcome`, `RewriteWithoutCalls` and `RewritePlaceholder` |
| `Rewriting.RewriteWithoutLookup` | lib/translator.js:101-115 | a copy whose first `exec` reaches no lookup comes back unchanged, whatever the catalogs are |
| `Rewriting.ReplaceEach` | lib/translator.js:107-113 | reference definition of the loop as a fold over the enumerated matches: with no match the text is unchanged; a success means every match's lookup succeeded; a failure is the failure of some match's lookup |
| `Rewriting.ResumeIsReplaceEach` | lib/translator.js:104-113 | resuming a global RegExp at `lastIndex` k does the same as replacing, in order, each match enumerated from k |
| `Rewriting.RewriteIsReplaceEach` | lib/translator.js:101-115 | for javascript, `translateCopy` looks up and replaces exactly the enumerated matches of the original copy, in source order, each replacement landing on the first occurrence in the evolving text |
| `Rewriting.ReplaceEachOutcome` | lib/translator.js:107-113 | replacing genuine matches fails exactly when there is a match and no catalog for `lang`, and then with the loading error or `CatalogMissing` |
| `Rewriting.RewriteOutcome` | lib/translator.js:101-115 | a javascript copy translates unless it holds a call and the catalogs cannot be loaded or lack `lang`; the failure is then the loading error or `CatalogMissing` |
| `Rewriting.RewriteWithoutCalls` | lib/translator.js:101-115 | a copy without `gettext(` is returned unchanged, whatever the catalogs |
| `Rewriting.RewritePlaceholder` | lib/translator.js:13 | for the handlebars placeholder, a copy containing `todo` fails with `EmptySourceString` (the pattern captures nothing) and any other copy is unchanged |
| `Catalogs.IsLocale` | lib/translator.js:33-36 | an entry is a locale exactly when "template" occurs nowhere in its name and the root joined with the name is a directory |
| `Catalogs.KeepLocales` | lib/translator.js:33-37 | the kept entries are exactly the listed names that do not contain "template" and are directories under the root; there are never more of them than names |
| `Catalogs.KeepLocalesAppend` | lib/translator.js:37 | the filter keeps directory order: filtering two parts of a listing and joining them is filtering the whole |
| `Catalogs.ListLocales` | lib/translator.js:32-38 | reading the root succeeds exactly when it is a directory, and then yields exactly its entries that are locales; a missing root fails with `LocaleRootMissing` |
| `Catalogs.LocalesOutcome` | lib/translator.js:27-38 | a non-empty cached list is returned as it is; an empty one is recomputed from the directory |
| `Catalogs.LocalesAfter` | lib/translator.js:37 | after `getLocales` the cache holds the list it returned; when reading the root raised, the (empty) cache is left as it was |
| `Catalogs.LocalesSettle` | lib/translator.js:28-30 | once a non-empty list is cached, every later call answers the same list, whatever the file system then holds |
| `Catalogs.PoPath` | lib/translator.js:48 | the catalog path is the root, `/`, the locale, then `/LC_MESSAGES/messages.po` |
| `Catalogs.PoPathInjective` | lib/translator.js:47-53 | a catalog path determines its locale, so distinct locales read distinct files |
| `Catalogs.FirstUnreadable` | lib/translator.js:47-53 | the position of the first locale whose `messages.po` cannot be read, with every earlier one readable |
| `Catalogs.LoadCatalogs` | lib/translator.js:47-55 | loading succeeds exactly when every locale's catalog is readable, and then maps exactly those locales, each to the catalog at its own path; otherwise it fails on the first unreadable path in locale order |
| `Catalogs.CatalogsOutcome` | lib/translator.js:42-56 | any cached object, even an empty one, is returned as it is; otherwise a failure to list locales propagates, or the locales are loaded |
| `Catalogs.CatalogsAfter` | lib/translator.js:55 | the catalog cache is set only by a successful load, to what that load returned; an existing cache is kept |
| `Catalogs.LoadSettles` | lib/translator.js:43-55 | asked again on the same file system, the caches a load leaves behind give the same answer and stay as they are |
| `Catalogs.CatalogsCoverLocales` | lib/translator.js:52-55 | the loaded catalogs contain every discovered locale, each with the catalog read from its own `messages.po` |
| `I18nTranslator.Outcomes` | lib/translator.js:124-126 | one `translateCopy` outcome per locale, in locale order, each on the original copy |
| `I18nTranslator.FanOut` | lib/translator.js:124-128 | the `for` loop of `translate` over the per-locale outcomes; it has no contract of its own, and its meaning comes from `FanOutMeaning`, `FanOutStops`, `FanOutStep` and `FanOutAllSucceed` |
| `I18nTranslator.FanOutMeaning` | lib/translator.js:124-128 | the events are the successful translations of a prefix of the locales, in locale order; without a failure every locale has its event; a failure is the outcome of the locale right after that prefix |
| `I18nTranslator.FanOutStops` | lib/translator.js:124-128 | once a locale has failed, the locales after it add nothing |
| `I18nTranslator.FanOutStep` | lib/translator.js:124-128 | one turn of the loop either appends the next locale's event or ends the run with that locale's failure |
| `I18nTranslator.FanOutAllSucceed` | lib/translator.js:124-128 | when every copy translates, there is exactly one event per locale, in locale order, and no failure |
| `I18nTranslator.TranslateSpec` | lib/translator.js:118-130 | an unsupported file type fails first, with no events; a missing locale root fails next, with no events |
| `I18nTranslator.TranslateEveryLocale` | lib/translator.js:118-130 | a fresh translator whose locales and catalogs can be read emits exactly one javascript event per locale, in directory order, and does not fail; each event's text is `translateCopy` of the original contents for that locale |
| `I18nTranslator.TranslateWithoutCalls` | lib/translator.js:118-130 | a file without a gettext call is emitted unchanged for every locale, without failure, whatever the catalogs |
| `I18nTranslator.Translator.constructor` | lib/translator.js:19-24 | the locale root is the given option or "locale"; both caches start empty and nothing has been emitted |
| `I18nTranslator.Translator.GetLocales` | lib/translator.js:27-39 | returns `LocalesOutcome` of the cache before the call, and leaves the cache as `LocalesAfter` says |
| `I18nTranslator.Translator.GetCatalogs` | lib/translator.js:42-57 | returns `CatalogsOutcome` of the caches before the call, and leaves both caches as a load leaves them |
| `I18nTranslator.Translator.GetCatalog` | lib/translator.js:60-67 | returns the locale's catalog from `getCatalogs`, or `CatalogMissing`, and leaves both caches as a load leaves them |
| `I18nTranslator.Translator.LangGettext` | lib/translator.js:70-77 | returns `Lookup` of the catalogs as they were; an empty msgid touches no cache; any other loads the caches |
| `I18nTranslator.Translator.TranslateCopy` | lib/translator.js:101-115 | the `while (match)` loop returns `Rewrite` of the original copy; the caches are loaded exactly when the first `exec` reaches a lookup |
| `I18nTranslator.Translator.Translate` | lib/translator.js:118-130 | appends exactly the events of `TranslateSpec` and returns its failure; the locale cache is read for every supported type; the catalog cache is loaded only when there is a locale and the copy reaches a lookup |
| `I18nTranslator.Translator.TranslateEach` | lib/translator.js:123-128 | the `for` loop appends the fan-out of the per-locale outcomes, all computed from the catalogs as they were before the loop, and returns its failure |
| `I18nTranslator.Translator.TransformFile` | lib/translator.js:133-140 | a file is translated, emitting the events of `TranslateSpec`, and then handed on unchanged; a file whose translation fails is not handed on; both caches end up as `translate` leaves them, so the next file reuses what this one loaded |
| `Samples.SampleMatches` | test/test.js:77-94 | repeated `exec` on the test's sample string finds exactly four calls, at 0, 26, 77 and 107; `noop()` and `get text(...)` are not matched |
| `Samples.SampleMsgIds` | test/test.js:78-84 | the four msgids are "Should Capture", "This too", "Much space" and "Such space" |
| `Samples.FrenchLookup` | test/test.js:40-44 | `langGettext('fr', 'Hello World')` is "Bonjour tout le monde" |
| `Samples.EnglishLookup` | test/test.js:50-51 | an entry whose msgstr is empty falls back to the msgid "Hello World" |
| `Samples.PortugueseLookup` | test/test.js:50-53 | the pt_BR lookup of "Hello World" is "Olá mundo" |
| `Samples.UnknownLocaleLookup` | lib/translator.js:60-67 | a locale without a catalog fails with `CatalogMissing` instead of falling back |
| `Samples.ScriptInFrench` | lib/translator.js:124-127 | the application's `script.js` comes out of the French pass with the call replaced by the French text between single quotes |
| `Samples.ScriptInEnglish` | test/test.js:128-132 | the English pass knocks the call out, leaving `window.alert('Hello World');` |
| `Samples.ScriptInPortuguese` | lib/translator.js:124-127 | the pt_BR pass quotes "Olá mundo" in place of the call |
| `Samples.ThreeLocales` | test/test.js:34-38 | the application's locale root yields the three language directories, in directory order; the template directory and a plain file are dropped |
| `Samples.AppLoads` | lib/translator.js:42-56 | a fresh translator lists the three locales and reads their three catalogs |
| `Samples.AppTranslates` | lib/translator.js:118-128 | `translate` of `script.js` by a fresh translator emits exactly three 'translation' events, in locale order, with the call knocked out and the locale's text quoted in each, and no failure |

## Left out

- File system access (`fs.readdirSync`, `fs.statSync`, `fs.readFileSync`) is not modelled. The file system is a value passed to each operation, and an unreadable or malformed `messages.po` is simply absent from it.
- `Catalogs.IsLocale`: `fs.statSync` throws on an entry it cannot stat (a dangling link, say); the model treats such an entry as not a directory, so it is dropped instead of failing `getLocales`.
- `.po` parsing by gettext-parser is left out. The parsed empty-context bucket is given as a map from msgid to msgstr forms. A catalog without that bucket is not modelled.
- UTF-8 decoding of `file.contents` is left out. Contents are given as text.
- The through2 stream, `emit('translation')`, `resume()` and the `cb` callback are left out. Emission is an append to the `emitted` field; handing a file on is the result of `TransformFile`.
- `error` either throws or emits on the stream (`lib/translator.js:80-87`). Both are modelled as a `Failure` that stops the operation. Code that runs on after an emitted error is not modelled, and neither is the `stream` field.
- Error message texts are not modelled. Each failure kind carries the locale root, path, locale or file type it names.
- `TokenRegex.IsSpace`: `\s` is restricted to the six ASCII white-space characters. JavaScript's `\s` also matches Unicode spaces.
- `Strings.ReplaceFirst`: `$` patterns in the replacement string are not expanded. The replacement is taken literally.
- `Rewriting.RewritePlaceholder`: the handlebars `/todo/` pattern is kept but modelled as failing. It is non-global and has no capture group. With a stream attached, the source would look up `undefined` and then loop forever, since `exec` keeps returning the same match. In the model, the missing msgid is the empty string and fails with `EmptySourceString`.
- `TokenRegex.MsgId`: an undefined capture group is modelled as the empty string. Both are falsy where the source tests them.
- Lookup of inherited object keys (`catalogs['constructor']` and the like) is not modelled. Catalogs and the catalog cache are maps.
- `TokenRegex.TokenPattern` and `TokenRegex.Bookend`: `TOKEN_REGEX[type]` and `BOOKENDS[type]` would also answer inherited keys such as `constructor`; the model treats those types as unregistered.
- `Catalogs.LoadCatalogs`: the order of keys in the catalog cache object (locale order, from `lodash.zipObject`) is not stated; the result is a map and the source only reads it by key.
- `lodash.defaults` is modelled only for `localeDir`. The other options are not used by the translator.
- `getLangPrefix` lives in `lib/translated-file.js`, which is not part of this model.
- The test application's gulpfile is build orchestration and is not part of this model.
- What the rest of the plugin does with the 'translation' events (writing one file per locale) is not part of this model. `TransformFile` hands on only the original file, once; the per-locale texts exist only as events.
- `Samples.App`: the catalogs and locale directory of the test application, and the content of its `src/script.js` (`Samples.Script`), are reconstructed from what its tests expect, because the fixture's locale files and script are not part of this model. The `templates` directory and `README` file are added to exercise the filter.
