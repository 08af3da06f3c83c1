/**
 * The two JavaScript string primitives the engine relies on: a substring
 * search (`String.prototype.match` with a literal pattern, `indexOf`) and
 * `String.prototype.replace` with a string needle, which replaces only the
 * first occurrence.
 */
module Strings {
  import opened I18nTypes

  /** `needle` occurs in `s` starting at index `k`. */
  predicate OccursAt(s: string, needle: string, k: nat) {
    k + |needle| <= |s| && s[k..k + |needle|] == needle
  }

  /** The first index at or after `from` where `needle` occurs. */
  function IndexOfFrom(s: string, needle: string, from: nat): (r: Option<nat>)
    ensures r.Some? ==> from <= r.value && OccursAt(s, needle, r.value)
    ensures r.Some? ==> forall j :: from <= j < r.value ==> !OccursAt(s, needle, j)
    ensures r.None? ==> forall j :: from <= j ==> !OccursAt(s, needle, j)
    decreases |s| - from
  {
    if from + |needle| > |s| then None
    else if s[from..from + |needle|] == needle then Some(from)
    else IndexOfFrom(s, needle, from + 1)
  }

  function IndexOf(s: string, needle: string): Option<nat> {
    IndexOfFrom(s, needle, 0)
  }

  predicate Contains(s: string, needle: string) {
    IndexOf(s, needle).Some?
  }

  /** `s.replace(needle, rep)`: the first occurrence of `needle` becomes `rep`;
      without an occurrence `s` is returned as it is. */
  function ReplaceFirst(s: string, needle: string, rep: string): (r: string)
    ensures IndexOf(s, needle).None? ==> r == s
    ensures IndexOf(s, needle).Some? ==>
      var k := IndexOf(s, needle).value;
      |r| == |s| - |needle| + |rep| && r[..k] == s[..k] && r[k..k + |rep|] == rep && r[k + |rep|..] == s[k + |needle|..]
  {
    match IndexOf(s, needle)
    case None => s
    case Some(k) => s[..k] + rep + s[k + |needle|..]
  }
}
