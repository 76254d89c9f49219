/**
 * Cloud locations and instance-name patterns (ufload/cloud.py).
 *
 * `_splitCloudName` separates an optional host from a directory; `_match_instance_name`
 * compiles a `%`-wildcard pattern into the anchored regular expression
 * `^seg0.*seg1.* ... .*segN$` and matches it; `_match_any_wildcard` accepts a name
 * when the pattern list is empty or some pattern matches.
 */
module CloudNames {
  import opened Text

  /** Host used when a location names no host. */
  const DEFAULT_HOST: string := "cloud.msf.org"

  /** `_splitCloudName`: `host:dir`, or just `dir` on the default host. */
  function SplitCloudName(x: string): (r: (string, string))
    ensures ':' !in x ==> r == (DEFAULT_HOST, x)
    ensures ':' in x ==> ':' !in r.0 && r.0 + ":" + r.1 == x
  {
    var spl := SplitOnce(x, ':');
    if |spl| == 1 then (DEFAULT_HOST, x) else (spl[0], spl[1])
  }

  /**
   * `y` is in the language of `.*segs[0].*segs[1] ... .*segs[n-1]$`: the segments occur
   * in order, without overlap, and the last one ends the string (`y` empty when there
   * are no segments).
   */
  predicate GapsMatch(segs: seq<string>, y: string)
    decreases |segs|
  {
    if segs == [] then y == ""
    else exists k: nat :: k + |segs[0]| <= |y| && Occurs(segs[0], y, k) && GapsMatch(segs[1..], y[k + |segs[0]|..])
  }

  /** `seg` occurs in `y` at position `k`. */
  predicate Occurs(seg: string, y: string, k: nat)
    requires k + |seg| <= |y|
  {
    y[k..k + |seg|] == seg
  }

  /** The literal pieces of a pattern: Python's `instance.split('%')`. */
  function Segments(pattern: string): (segs: seq<string>)
    ensures |segs| >= 1
  {
    Split(pattern, '%')
  }

  /**
   * `_match_instance_name(pattern, x)`: `x` starts with the first segment and the rest of
   * `x` is matched by `.*seg1 ... .*segN$`.
   */
  predicate MatchInstanceName(pattern: string, x: string)
  {
    var segs := Segments(pattern);
    StartsWith(x, segs[0]) && GapsMatch(segs[1..], x[|segs[0]|..])
  }

  /** The `for i in instances` loop of `_match_any_wildcard`: some pattern matches. */
  predicate AnyMatches(patterns: seq<string>, x: string)
  {
    patterns != [] && (MatchInstanceName(patterns[0], x) || AnyMatches(patterns[1..], x))
  }

  /** `_match_any_wildcard`: an empty pattern list accepts everything. */
  function MatchAnyWildcard(patterns: seq<string>, x: string): (r: bool)
    ensures r <==> patterns == [] || exists k :: 0 <= k < |patterns| && MatchInstanceName(patterns[k], x)
  {
    AnyMatchesSome(patterns, x);
    patterns == [] || AnyMatches(patterns, x)
  }

  lemma {:induction false} AnyMatchesSome(patterns: seq<string>, x: string)
    ensures AnyMatches(patterns, x) <==> exists k :: 0 <= k < |patterns| && MatchInstanceName(patterns[k], x)
  {
    if patterns != [] {
      AnyMatchesSome(patterns[1..], x);
      if MatchInstanceName(patterns[0], x) {
        assert 0 < |patterns|;
      }
      forall k | 1 <= k < |patterns| && MatchInstanceName(patterns[k], x)
        ensures AnyMatches(patterns[1..], x)
      {
        assert patterns[1..][k - 1] == patterns[k];
      }
    }
  }

  /** A pattern without `%` matches exactly one name: itself. */
  lemma NoWildcardMatchesOnlyItself(pattern: string, x: string)
    requires '%' !in pattern
    ensures MatchInstanceName(pattern, x) <==> x == pattern
  {
    SplitWithoutSeparator(pattern, '%');
  }

  /** When the remaining segments match, the string ends with the last of them. */
  lemma {:induction false} GapsMatchEndsWithLast(segs: seq<string>, y: string)
    requires segs != [] && GapsMatch(segs, y)
    ensures EndsWith(y, Last(segs))
    decreases |segs|
  {
    var k: nat :| k + |segs[0]| <= |y| && Occurs(segs[0], y, k) && GapsMatch(segs[1..], y[k + |segs[0]|..]);
    var rest := y[k + |segs[0]|..];
    if |segs| == 1 {
      assert rest == "";
    } else {
      GapsMatchEndsWithLast(segs[1..], rest);
      assert Last(segs[1..]) == Last(segs);
      assert y[|y| - |Last(segs)|..] == rest[|rest| - |Last(segs)|..];
    }
  }

  /**
   * A match with a wildcard is anchored at both ends: the name starts with the first
   * segment, ends with the last, and the two do not overlap.
   */
  lemma MatchIsAnchored(pattern: string, x: string)
    requires '%' in pattern && MatchInstanceName(pattern, x)
    ensures var segs := Segments(pattern);
            StartsWith(x, segs[0]) && EndsWith(x, Last(segs)) && |segs[0]| + |Last(segs)| <= |x|
  {
    var segs := Segments(pattern);
    SplitCount(pattern, '%');
    var y := x[|segs[0]|..];
    GapsMatchEndsWithLast(segs[1..], y);
    assert Last(segs[1..]) == Last(segs);
    assert x[|x| - |Last(segs)|..] == y[|y| - |Last(segs)|..];
  }

  /** One occurrence of the first segment, followed by a match of the others, is a match. */
  lemma GapsMatchAt(segs: seq<string>, y: string, k: nat)
    requires segs != [] && k + |segs[0]| <= |y| && Occurs(segs[0], y, k)
    requires GapsMatch(segs[1..], y[k + |segs[0]|..])
    ensures GapsMatch(segs, y)
  {
  }

  lemma SurroundedSegments(s: string)
    requires '%' !in s
    ensures Segments("%" + s + "%") == ["", s, ""]
  {
    var p := "%" + s + "%";
    assert p[1..] == s + "%";
    assert IndexOf(s + "%", '%') == |s| by {
      assert (s + "%")[|s|] == '%';
    }
    assert (s + "%")[..|s|] == s;
    assert Split(s + "%", '%') == [s, ""];
  }

  /** `%s%` is the pattern that gives substring matching. */
  lemma SurroundedPatternIsSubstring(s: string, x: string)
    requires '%' !in s
    ensures MatchInstanceName("%" + s + "%", x) <==>
            exists k: nat :: k + |s| <= |x| && Occurs(s, x, k)
  {
    var p := "%" + s + "%";
    SurroundedSegments(s);
    var segs := Segments(p);
    assert segs[1..] == [s, ""];
    if exists k: nat :: k + |s| <= |x| && Occurs(s, x, k) {
      var k: nat :| k + |s| <= |x| && Occurs(s, x, k);
      var rest := x[k + |s|..];
      GapsMatchAt([""], rest, |rest|);
      assert [s, ""][1..] == [""];
      GapsMatchAt([s, ""], x, k);
      assert x[|segs[0]|..] == x;
    }
  }

  /**
   * ufload/test_cloud.py expects `SZ1_NHL` and `OCG_UG` to pick out
   * `OCG_SZ1_NHL-Wed.zip` and `OCG_UG2_SUKA-Fri.zip` as substrings; the anchored
   * matcher accepts neither.
   */
  lemma SubstringExpectationFails()
    ensures !MatchAnyWildcard(["SZ1_NHL", "OCG_UG"], "OCG_SZ1_NHL-Wed.zip")
    ensures !MatchAnyWildcard(["SZ1_NHL", "OCG_UG"], "OCG_UG2_SUKA-Fri.zip")
    ensures !MatchAnyWildcard(["SZ1_NHL", "OCG_UG"], "other")
  {
    NeitherPlainPatternMatches("SZ1_NHL", "OCG_UG", "OCG_SZ1_NHL-Wed.zip");
    NeitherPlainPatternMatches("SZ1_NHL", "OCG_UG", "OCG_UG2_SUKA-Fri.zip");
    NeitherPlainPatternMatches("SZ1_NHL", "OCG_UG", "other");
  }

  lemma NeitherPlainPatternMatches(a: string, b: string, x: string)
    requires '%' !in a && '%' !in b && x != a && x != b
    ensures !MatchAnyWildcard([a, b], x)
  {
    NoWildcardMatchesOnlyItself(a, x);
    NoWildcardMatchesOnlyItself(b, x);
  }
}
