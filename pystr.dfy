/**
 * The few Python `str` operations the notes window relies on:
 * `strip()` (both ends, Python's notion of whitespace) and
 * `replace("\n", " ")`.
 *
 * The functions carry only size facts in their contracts; what they do
 * character by character is stated by the lemmas beside them, so that a
 * caller pays for those facts only where it asks for them.
 */
module PyStr {

  /** The characters for which Python's `str.isspace()` holds. */
  predicate IsSpace(c: char)
  {
    ('\t' <= c <= '\r') || ('\U{1C}' <= c <= ' ') || c == '\U{85}' || c == '\U{A0}'
    || c == '\U{1680}' || ('\U{2000}' <= c <= '\U{200A}') || c == '\U{2028}' || c == '\U{2029}'
    || c == '\U{202F}' || c == '\U{205F}' || c == '\U{3000}'
  }

  predicate AllSpace(s: string)
  {
    forall i :: 0 <= i < |s| ==> IsSpace(s[i])
  }

  /** How many whitespace characters `s` starts with. */
  function LeadingSpace(s: string): (k: nat)
    ensures k <= |s|
  {
    if s != [] && IsSpace(s[0]) then 1 + LeadingSpace(s[1..]) else 0
  }

  /** The leading run is whitespace and is followed by a non-whitespace character, if any. */
  lemma {:induction false} LeadingSpaceRun(s: string)
    ensures forall i :: 0 <= i < LeadingSpace(s) ==> IsSpace(s[i])
    ensures LeadingSpace(s) < |s| ==> !IsSpace(s[LeadingSpace(s)])
  {
    if s != [] && IsSpace(s[0]) {
      LeadingSpaceRun(s[1..]);
      assert forall i :: 1 <= i < |s| ==> s[1..][i - 1] == s[i];
    }
  }

  /**
   * Where the whitespace that `s` ends with begins, looking no further
   * left than position `lo`.
   */
  function TrailingStart(s: string, lo: nat): (k: nat)
    requires lo <= |s|
    ensures lo <= k <= |s|
  {
    if lo < |s| && IsSpace(s[|s| - 1]) then TrailingStart(s[..|s| - 1], lo) else |s|
  }

  /** The trailing run is whitespace and, past `lo`, preceded by a non-whitespace character. */
  lemma {:induction false} TrailingStartRun(s: string, lo: nat)
    requires lo <= |s|
    ensures forall i :: TrailingStart(s, lo) <= i < |s| ==> IsSpace(s[i])
    ensures lo < TrailingStart(s, lo) ==> !IsSpace(s[TrailingStart(s, lo) - 1])
  {
    if lo < |s| && IsSpace(s[|s| - 1]) {
      var front := s[..|s| - 1];
      TrailingStartRun(front, lo);
      assert forall i :: 0 <= i < |front| ==> front[i] == s[i];
    }
  }

  /** `s.strip()`: `lstrip()` followed by `rstrip()`. */
  function Strip(s: string): (r: string)
    ensures |r| <= |s|
    ensures r != [] ==> !IsSpace(r[0]) && !IsSpace(r[|r| - 1])
  {
    var a := LeadingSpace(s);
    LeadingSpaceRun(s);
    TrailingStartRun(s, a);
    s[a..TrailingStart(s, a)]
  }

  /**
   * What `strip()` keeps is one contiguous piece of `s` and everything
   * around it is whitespace.
   */
  lemma StripSlice(s: string)
    ensures exists a, b ::
              && 0 <= a <= b <= |s| && Strip(s) == s[a..b]
              && AllSpace(s[..a]) && AllSpace(s[b..])
  {
    var a := LeadingSpace(s);
    var b := TrailingStart(s, a);
    LeadingSpaceRun(s);
    TrailingStartRun(s, a);
    assert Strip(s) == s[a..b];
    assert AllSpace(s[b..]);
  }

  /** `strip()` gives the empty string exactly for blank input. */
  lemma StripEmptyIffBlank(s: string)
    ensures Strip(s) == [] <==> AllSpace(s)
  {
    var a := LeadingSpace(s);
    LeadingSpaceRun(s);
    TrailingStartRun(s, a);
    assert AllSpace(s) ==> a == |s|;
  }

  /** Stripping a string that has no whitespace at either end changes nothing. */
  lemma StripTrimmed(s: string)
    requires s != [] ==> !IsSpace(s[0]) && !IsSpace(s[|s| - 1])
    ensures Strip(s) == s
  {
    assert LeadingSpace(s) == 0;
  }

  /** `s.replace("\n", " ")`. */
  function ReplaceNewlines(s: string): (r: string)
    ensures |r| == |s|
  {
    if s == [] then []
    else [if s[0] == '\n' then ' ' else s[0]] + ReplaceNewlines(s[1..])
  }

  /** Every newline becomes a space, every other character stays, and no newline is left. */
  lemma {:induction false} ReplaceNewlinesEach(s: string)
    ensures forall i :: 0 <= i < |s| ==>
      ReplaceNewlines(s)[i] == (if s[i] == '\n' then ' ' else s[i])
    ensures '\n' !in ReplaceNewlines(s)
  {
    if s != [] {
      ReplaceNewlinesEach(s[1..]);
      assert forall i :: 1 <= i < |s| ==> ReplaceNewlines(s)[i] == ReplaceNewlines(s[1..])[i - 1];
    }
  }

  /** A string without newlines is left as it is. */
  lemma ReplaceNoNewlines(s: string)
    requires '\n' !in s
    ensures ReplaceNewlines(s) == s
  {
    ReplaceNewlinesEach(s);
    assert forall i :: 0 <= i < |s| ==> s[i] != '\n';
  }
}
