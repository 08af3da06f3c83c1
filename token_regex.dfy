/**
 * The per-file-type token patterns (TOKEN_REGEX, BOOKENDS, getTokenRegex)
 * and a hand-written matcher for the javascript pattern
 *
 *     gettext\(\s*(?:"([^"]+)"|'([^']+)')\s*\)\s*      (flag g)
 *
 * The pattern has no real backtracking: `[^"]+` and `[^']+` stop at the
 * closing quote and every `\s*` is followed by a non-space token, so the
 * match at a position is found by one left-to-right scan.  `exec` on a
 * global RegExp searches from `lastIndex`, moves `lastIndex` to the end of
 * the match, and resets it to 0 when nothing is found.
 */
module TokenRegex {
  import opened I18nTypes
  import opened Strings

  /** The patterns registered in TOKEN_REGEX. */
  datatype Pattern =
    | GettextCall      // 'javascript': the gettext(...) call pattern, global
    | TodoPlaceholder  // 'handlebars': the placeholder /todo/, not global
  {
    predicate Global() { GettextCall? }
  }

  /** A RegExp object: its pattern and its mutable `lastIndex`. */
  datatype Matcher = Matcher(pattern: Pattern, lastIndex: nat)

  /** An `exec` result: `match.index`, `match[0]`, `match[1]` and `match[2]`
      (`None` for a capture group that took no part in the match). */
  datatype Match = Match(index: nat, text: string, group1: Option<string>, group2: Option<string>) {
    function End(): nat { index + |text| }
  }

  /** TOKEN_REGEX: file type -> pattern. */
  function TokenPattern(fileType: string): (r: Option<Pattern>)
    ensures r.Some? <==> fileType == "javascript" || fileType == "handlebars"
    ensures r == Some(GettextCall) <==> fileType == "javascript"
  {
    if fileType == "javascript" then Some(GettextCall)
    else if fileType == "handlebars" then Some(TodoPlaceholder)
    else None
  }

  /** `BOOKENDS[type] || ''`: a single quote for javascript, nothing otherwise. */
  function Bookend(fileType: string): (r: string)
    ensures fileType == "javascript" ==> r == "'"
    ensures fileType != "javascript" ==> r == ""
  {
    if fileType == "javascript" then "'" else ""
  }

  /** getTokenRegex: a new RegExp copied from the registered pattern (so its
      `lastIndex` starts at 0), or a failure for an unregistered type. */
  function GetTokenRegex(fileType: string): (r: Result<Matcher>)
    ensures r.Success? <==> fileType == "javascript" || fileType == "handlebars"
    ensures r.Success? ==> r.value.lastIndex == 0
    ensures fileType == "javascript" ==> r == Success(Matcher(GettextCall, 0)) && r.value.pattern.Global()
    ensures r.Failure? ==> r.error == UnsupportedFileType(fileType)
  {
    match TokenPattern(fileType)
    case None => Failure(UnsupportedFileType(fileType))
    case Some(p) => Success(Matcher(p, 0))
  }

  /** `\s`, restricted to ASCII: space, tab, line feed, vertical tab, form feed, carriage return. */
  predicate IsSpace(c: char) {
    c == ' ' || c == '\t' || c == '\n' || c == '\U{B}' || c == '\U{C}' || c == '\r'
  }

  predicate AllSpace(s: string, a: nat, b: nat)
    requires a <= b <= |s|
  {
    forall t :: a <= t < b ==> IsSpace(s[t])
  }

  const Opener: string := "gettext("

  /** The end of the run of spaces that starts at `k` (greedy `\s*`). */
  function SkipSpaces(s: string, k: nat): (j: nat)
    requires k <= |s|
    ensures k <= j <= |s| && AllSpace(s, k, j)
    ensures j == |s| || !IsSpace(s[j])
    decreases |s| - k
  {
    if k == |s| || !IsSpace(s[k]) then k else SkipSpaces(s, k + 1)
  }

  /** The first index at or after `k` holding `c`, or |s| (the end of `[^c]+`). */
  function FindChar(s: string, c: char, k: nat): (j: nat)
    requires k <= |s|
    ensures k <= j <= |s|
    ensures forall t :: k <= t < j ==> s[t] != c
    ensures j == |s| || s[j] == c
    decreases |s| - k
  {
    if k == |s| || s[k] == c then k else FindChar(s, c, k + 1)
  }

  /** Where the parts of one javascript match lie: the opening quote is at
      capStart - 1, the closing quote at capEnd, `)` at close, and the
      trailing whitespace runs to end. */
  datatype Hit = Hit(quote: char, capStart: nat, capEnd: nat, close: nat, end: nat)

  /** s[i..h.end] is a word of the javascript pattern, split as `h` says. */
  ghost predicate IsMarker(s: string, i: nat, h: Hit) {
    InOrder(s, i, h)
    && s[i..i + 8] == Opener
    && AllSpace(s, i + 8, h.capStart - 1)
    && (h.quote == '"' || h.quote == '\'')
    && s[h.capStart - 1] == h.quote
    && (forall t :: h.capStart <= t < h.capEnd ==> s[t] != h.quote)
    && s[h.capEnd] == h.quote
    && AllSpace(s, h.capEnd + 1, h.close)
    && s[h.close] == ')'
    && AllSpace(s, h.close + 1, h.end)
  }

  /** The trailing `\s*` took every space there was. */
  ghost predicate Greedy(s: string, h: Hit)
    requires h.end <= |s|
  {
    h.end == |s| || !IsSpace(s[h.end])
  }

  /** The parts of a match starting at i lie in order inside s. */
  predicate InOrder(s: string, i: nat, h: Hit) {
    i + 8 < h.capStart < h.capEnd < h.close < h.end <= |s|
  }

  /** The pattern after its literal prefix "gettext(", which starts at i. */
  function AfterOpener(s: string, i: nat): (r: Option<Hit>)
    requires i + 8 <= |s|
    ensures r.Some? ==> InOrder(s, i, r.value)
  {
    var open := SkipSpaces(s, i + 8);
    if open == |s| || (s[open] != '"' && s[open] != '\'') then None
    else
      var q := s[open];
      var capEnd := FindChar(s, q, open + 1);
      if capEnd == |s| || capEnd == open + 1 then None
      else
        var close := SkipSpaces(s, capEnd + 1);
        if close == |s| || s[close] != ')' then None
        else Some(Hit(q, open + 1, capEnd, close, SkipSpaces(s, close + 1)))
  }

  /** Compares s[j..i + 8] with the rest of "gettext(", one character at a
      time, then matches the remainder of the pattern. */
  function MatchOpener(s: string, i: nat, j: nat): (r: Option<Hit>)
    requires i <= j <= i + 8 && j <= |s|
    ensures r.Some? ==> InOrder(s, i, r.value)
    decreases i + 8 - j
  {
    if j == i + 8 then AfterOpener(s, i)
    else if j < |s| && s[j] == Opener[j - i] then MatchOpener(s, i, j + 1)
    else None
  }

  /** The javascript pattern anchored at index i. */
  function MatchAt(s: string, i: nat): (r: Option<Hit>)
    requires i <= |s|
    ensures r.Some? ==> InOrder(s, i, r.value)
  {
    MatchOpener(s, i, i)
  }

  lemma {:induction false} MatchOpenerUnfold(s: string, i: nat, j: nat)
    requires i <= j <= i + 8 && j <= |s| && s[i..j] == Opener[..j - i]
    ensures MatchOpener(s, i, j) == if i + 8 <= |s| && s[i..i + 8] == Opener then AfterOpener(s, i) else None
    decreases i + 8 - j
  {
    if j == i + 8 {
    } else if j < |s| && s[j] == Opener[j - i] {
      assert s[i..j + 1] == s[i..j] + [s[j]];
      assert Opener[..j + 1 - i] == Opener[..j - i] + [Opener[j - i]];
      MatchOpenerUnfold(s, i, j + 1);
    } else {
      assert i + 8 <= |s| ==> s[i..i + 8][j - i] == s[j];
    }
  }

  /** MatchAt is the literal prefix followed by the rest of the pattern. */
  lemma MatchAtUnfold(s: string, i: nat)
    requires i <= |s|
    ensures MatchAt(s, i) == if i + 8 <= |s| && s[i..i + 8] == Opener then AfterOpener(s, i) else None
  {
    MatchOpenerUnfold(s, i, i);
  }

  /** What MatchAt finds is a match of the pattern, with the longest trailing whitespace. */
  lemma MatchAtSound(s: string, i: nat)
    requires i <= |s| && MatchAt(s, i).Some?
    ensures IsMarker(s, i, MatchAt(s, i).value) && Greedy(s, MatchAt(s, i).value)
  {
    MatchAtUnfold(s, i);
  }

  /** Whenever the pattern matches at i, MatchAt finds that match, with the
      same quote and capture, and its trailing whitespace is the longest. */
  lemma MatchAtComplete(s: string, i: nat, h: Hit)
    requires IsMarker(s, i, h)
    ensures MatchAt(s, i).Some?
    ensures var g := MatchAt(s, i).value;
      g.quote == h.quote && g.capStart == h.capStart && g.capEnd == h.capEnd && g.close == h.close && g.end >= h.end
  {
    MatchAtUnfold(s, i);
    var open := SkipSpaces(s, i + 8);
    assert !IsSpace(s[h.capStart - 1]);
    assert open == h.capStart - 1;
    var capEnd := FindChar(s, h.quote, open + 1);
    assert capEnd == h.capEnd;
    var close := SkipSpaces(s, capEnd + 1);
    assert !IsSpace(s[h.close]);
    assert close == h.close;
  }

  /** The match at i is unique: a split of the pattern whose trailing
      whitespace is the longest is exactly what MatchAt returns. */
  lemma MatchAtExact(s: string, i: nat, h: Hit)
    requires IsMarker(s, i, h) && Greedy(s, h)
    ensures MatchAt(s, i) == Some(h)
  {
    MatchAtComplete(s, i, h);
    MatchAtSound(s, i);
  }

  /** `match[0]`, `match[1]` and `match[2]` of the match `h` found at i. */
  function ToMatch(s: string, i: nat, h: Hit): (m: Match)
    requires InOrder(s, i, h)
    ensures m.index == i && m.End() == h.end && m.text == s[i..h.end]
    ensures m.group1.Some? <==> h.quote == '"'
    ensures m.group2.Some? <==> h.quote == '\''
    ensures m.group1.Some? ==> m.group1.value == s[h.capStart..h.capEnd]
    ensures m.group2.Some? ==> m.group2.value == s[h.capStart..h.capEnd]
  {
    var cap := s[h.capStart..h.capEnd];
    Match(i, s[i..h.end], if h.quote == '"' then Some(cap) else None, if h.quote == '\'' then Some(cap) else None)
  }

  /** `match[1] || match[2]`; an undefined msgid is the empty string here. */
  function MsgId(m: Match): (r: string)
    ensures m.group1.Some? && m.group1.value != "" ==> r == m.group1.value
    ensures (m.group1.None? || m.group1.value == "") && m.group2.Some? ==> r == m.group2.value
    ensures r == "" || (m.group1.Some? && r == m.group1.value) || (m.group2.Some? && r == m.group2.value)
    ensures m.group1.None? && m.group2.None? ==> r == ""
  {
    if m.group1.Some? && m.group1.value != "" then m.group1.value
    else if m.group2.Some? then m.group2.value
    else ""
  }

  /** Exactly one capture group is set, it is non-empty and holds no quote
      of its own kind, and it is the msgid the engine looks up. */
  lemma MatchGroups(s: string, i: nat)
    requires i <= |s| && MatchAt(s, i).Some?
    ensures var m := ToMatch(s, i, MatchAt(s, i).value);
      (m.group1.Some? != m.group2.Some?)
      && (m.group1.Some? ==> MsgId(m) == m.group1.value && '"' !in m.group1.value)
      && (m.group2.Some? ==> MsgId(m) == m.group2.value && '\'' !in m.group2.value)
      && MsgId(m) != ""
      && m.text[..8] == Opener
  {
    var h := MatchAt(s, i).value;
    MatchAtSound(s, i);
    var m := ToMatch(s, i, h);
    var cap := s[h.capStart..h.capEnd];
    assert cap[0] == s[h.capStart];
    assert h.quote !in cap by {
      forall k | 0 <= k < |cap| ensures cap[k] != h.quote {
        assert cap[k] == s[h.capStart + k];
      }
    }
  }

  /** The leftmost match at or after `from` (javascript pattern). */
  function FirstMatchFrom(s: string, from: nat): (r: Option<Match>)
    requires from <= |s|
    ensures r.Some? ==> from <= r.value.index <= |s| && MatchAt(s, r.value.index).Some?
    ensures r.Some? ==> r.value == ToMatch(s, r.value.index, MatchAt(s, r.value.index).value)
    ensures r.Some? ==> forall j :: from <= j < r.value.index ==> MatchAt(s, j).None?
    ensures r.None? ==> forall j :: from <= j <= |s| ==> MatchAt(s, j).None?
    decreases |s| - from
  {
    match MatchAt(s, from)
    case Some(h) => Some(ToMatch(s, from, h))
    case None => if from == |s| then None else FirstMatchFrom(s, from + 1)
  }

  /** What `re.exec(s)` returns and what it leaves in the RegExp. */
  function ExecSpec(mt: Matcher, s: string): (r: (Option<Match>, Matcher))
    ensures r.1.pattern == mt.pattern
    ensures mt.lastIndex <= |s| ==> r.1.lastIndex <= |s|
    ensures r.0.Some? ==> r.0.value.End() <= |s| && r.0.value.text == s[r.0.value.index..r.0.value.End()]
    ensures r.0.Some? ==> (MsgId(r.0.value) != "" <==> mt.pattern.Global())
    ensures mt.pattern.Global() && r.0.Some? ==>
      mt.lastIndex <= r.0.value.index < r.0.value.End() == r.1.lastIndex
    ensures mt.pattern.Global() && r.0.None? ==> r.1.lastIndex == 0
    ensures !mt.pattern.Global() ==> r.1 == mt
  {
    match mt.pattern
    case GettextCall =>
      if mt.lastIndex > |s| then (None, Matcher(GettextCall, 0))
      else
        var m := FirstMatchFrom(s, mt.lastIndex);
        if m.None? then (None, Matcher(GettextCall, 0))
        else
          MatchGroups(s, m.value.index);
          (m, Matcher(GettextCall, m.value.End()))
    case TodoPlaceholder =>
      match IndexOf(s, "todo")
      case None => (None, mt)
      case Some(k) => (Some(Match(k, "todo", None, None)), mt)
  }

  /** `re.exec(s)`: scans forward from `lastIndex` for the leftmost match. */
  method Exec(mt: Matcher, s: string) returns (m: Option<Match>, next: Matcher)
    ensures (m, next) == ExecSpec(mt, s)
  {
    if !mt.pattern.Global() {
      // A non-global RegExp always searches from the start and leaves lastIndex alone.
      var k := IndexOf(s, "todo");
      m := if k.Some? then Some(Match(k.value, "todo", None, None)) else None;
      next := mt;
      return;
    }
    if mt.lastIndex > |s| {
      m, next := None, Matcher(GettextCall, 0);
      return;
    }
    var i := mt.lastIndex;
    while i <= |s|
      invariant mt.lastIndex <= i <= |s| + 1
      invariant forall j :: mt.lastIndex <= j < i ==> MatchAt(s, j).None?
    {
      var h := MatchAt(s, i);
      if h.Some? {
        m := Some(ToMatch(s, i, h.value));
        next := Matcher(GettextCall, m.value.End());
        return;
      }
      i := i + 1;
    }
    m, next := None, Matcher(GettextCall, 0);
  }

  /** The matches that repeated `exec` calls on a global RegExp return,
      starting from `lastIndex == from`, until the first failure. */
  function AllMatches(s: string, from: nat): (ms: seq<Match>)
    requires from <= |s|
    decreases |s| - from
  {
    match FirstMatchFrom(s, from)
    case None => []
    case Some(m) => [m] + AllMatches(s, m.End())
  }

  /** Each of ms is a genuine match of the pattern in s, at or after `from`. */
  ghost predicate Genuine(s: string, from: nat, ms: seq<Match>) {
    forall k :: 0 <= k < |ms| ==>
      from <= ms[k].index < ms[k].End() <= |s| && MatchAt(s, ms[k].index).Some? &&
      ms[k] == ToMatch(s, ms[k].index, MatchAt(s, ms[k].index).value)
  }

  /** ms is in source order, without overlap. */
  ghost predicate Ordered(ms: seq<Match>) {
    forall k :: 0 <= k < |ms| - 1 ==> ms[k].End() <= ms[k + 1].index
  }

  /** Every enumerated match is a genuine match of the pattern, found at or
      after the starting index, and the enumeration is in source order
      without overlap. */
  lemma {:induction false} AllMatchesSound(s: string, from: nat)
    requires from <= |s|
    ensures Genuine(s, from, AllMatches(s, from)) && Ordered(AllMatches(s, from))
    decreases |s| - from
  {
    match FirstMatchFrom(s, from)
    case None =>
    case Some(m) =>
      var ms := AllMatches(s, from);
      var rest := AllMatches(s, m.End());
      assert ms == [m] + rest;
      AllMatchesSound(s, m.End());
      forall k | 1 <= k < |ms| ensures ms[k] == rest[k - 1] && from <= ms[k].index {
      }
      assert |rest| > 0 ==> m.End() <= rest[0].index;
  }

  /** Index j lies inside one of the matches in ms. */
  ghost predicate Covered(ms: seq<Match>, j: nat) {
    exists k :: 0 <= k < |ms| && ms[k].index <= j < ms[k].End()
  }

  /** No match is missed: every index at or after `from` where the pattern
      matches is the start of an enumerated match or lies inside one. */
  lemma {:induction false} AllMatchesComplete(s: string, from: nat, j: nat)
    requires from <= j <= |s| && MatchAt(s, j).Some?
    ensures Covered(AllMatches(s, from), j)
    decreases |s| - from
  {
    var ms := AllMatches(s, from);
    match FirstMatchFrom(s, from)
    case None =>
      assert false;
    case Some(m) =>
      var rest := AllMatches(s, m.End());
      assert ms == [m] + rest;
      if j < m.End() {
        assert m.index <= j;
        assert ms[0] == m;
      } else {
        AllMatchesComplete(s, m.End(), j);
        var k :| 0 <= k < |rest| && rest[k].index <= j < rest[k].End();
        assert ms[k + 1] == rest[k];
      }
  }
}
