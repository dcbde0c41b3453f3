/** matchWildcard: the ordered chain of matching rules the monitor applies to
    paths and process names. The first rule that succeeds decides. */
module Wildcard {

  import opened Text
  import Glob

  /** Rule 2 inner loop: does `suffix` glob-match the sub-path made of
      dirs[i..], or of any later slice? */
  function SubPathMatches(suffix: string, dirs: seq<string>, i: nat): bool
    decreases |dirs| - i
  {
    if i >= |dirs| then false
    else (!Glob.BadPattern(suffix) && Glob.Match(suffix, Join(dirs[i..], "/")))
         || SubPathMatches(suffix, dirs, i + 1)
  }

  // Rule 2: the recursive form `prefix**/suffix`.
  predicate RecursiveMatch(path: string, pattern: string) {
    Contains(pattern, "**/") &&
    var parts := Split(pattern, "**/");
    |parts| == 2 &&
    var prefix := parts[0];
    var suffix := parts[1];
    (prefix == "" || HasPrefix(path, prefix)) &&
    var rest := if prefix != "" then path[|prefix|..] else path;
    SubPathMatches(suffix, Split(rest, "/"), 0)
  }

  /** The scan of rule 5, as a function: each non-empty segment is looked up
      in what is left after the previous one, taking its first occurrence. */
  function GreedyScan(s: string, segments: seq<string>): bool
    decreases |segments|
  {
    if segments == [] then true
    else if segments[0] == "" then GreedyScan(s, segments[1..])
    else
      var index := Index(s, segments[0]);
      if index == -1 then false
      else GreedyScan(s[index + |segments[0]|..], segments[1..])
  }

  /** The scan of rule 5 as the source runs it: a loop that advances a
      `current` suffix of the path. */
  method ScanSegments(path: string, segments: seq<string>) returns (ok: bool)
    ensures ok == GreedyScan(path, segments)
    ensures ok <==> InOrder(path, segments)
  {
    GreedyScanComplete(path, segments);
    var current := path;
    var i := 0;
    while i < |segments|
      invariant 0 <= i <= |segments|
      invariant GreedyScan(current, segments[i..]) == GreedyScan(path, segments)
    {
      assert segments[i..][1..] == segments[i + 1..];
      if segments[i] == "" {
        i := i + 1;
        continue;
      }
      var index := Index(current, segments[i]);
      if index == -1 {
        return false;
      }
      current := current[index + |segments[i]|..];
      i := i + 1;
    }
    return true;
  }

  /** Rule 5, from the segments of the pattern split at every `*`. */
  predicate SegmentsMatch(path: string, segments: seq<string>)
    requires |segments| >= 1
  {
    var first := segments[0];
    var last := segments[|segments| - 1];
    if first != "" && !HasPrefix(path, first) then false
    else if last != "" && !HasSuffix(path, last) then false
    else GreedyScan(path, segments)
  }

  /** matchWildcard(path, pattern). */
  function MatchWildcard(path: string, pattern: string): (r: bool)
    ensures Glob.BadPattern(pattern) ==> !r
    ensures !Glob.BadPattern(pattern) && Glob.Match(pattern, path) ==> r
    ensures !Glob.BadPattern(pattern) && RecursiveMatch(path, pattern) ==> r
  {
    if Glob.BadPattern(pattern) then false
    else if Glob.Match(pattern, path) then true
    else if RecursiveMatch(path, pattern) then true
    else if HasPrefix(pattern, "*") && HasSuffix(path, pattern[1..]) then true
    else if HasSuffix(pattern, "*") && HasPrefix(path, pattern[..|pattern| - 1]) then true
    else if multiset(pattern)['*'] > 1 then SegmentsMatch(path, Split(pattern, "*"))
    else false
  }

  // ---------------------------------------------------------------------
  // What the rules mean

  /** The segments occur in s left to right without overlapping: the
      declarative reading of rule 5's scan. */
  ghost predicate InOrder(s: string, segments: seq<string>)
    decreases |segments|
  {
    segments == [] ||
    exists k :: OccursAt(s, segments[0], k) && InOrder(s[k + |segments[0]|..], segments[1..])
  }

  /** Text in front never spoils an in-order occurrence. */
  lemma InOrderExtend(u: string, t: string, segments: seq<string>)
    requires InOrder(t, segments)
    ensures InOrder(u + t, segments)
  {
    if segments != [] {
      var seg := segments[0];
      var k :| OccursAt(t, seg, k) && InOrder(t[k + |seg|..], segments[1..]);
      var s := u + t;
      assert s[k + |u|..k + |u| + |seg|] == t[k..k + |seg|];
      assert s[k + |u| + |seg|..] == t[k + |seg|..];
      assert OccursAt(s, seg, k + |u|);
    }
  }

  /** An empty segment constrains nothing. */
  lemma EmptySegmentSkips(s: string, segments: seq<string>)
    requires segments != [] && segments[0] == ""
    ensures InOrder(s, segments) <==> InOrder(s, segments[1..])
  {
    var rest := segments[1..];
    if InOrder(s, rest) {
      assert OccursAt(s, "", 0) && s[0..] == s;
    }
    if InOrder(s, segments) {
      var k :| OccursAt(s, "", k) && InOrder(s[k..], rest);
      InOrderExtend(s[..k], s[k..], rest);
      assert s[..k] + s[k..] == s;
    }
  }

  /** Placing a segment at its first occurrence loses no solution. */
  lemma FirstOccurrenceSuffices(s: string, segments: seq<string>)
    requires segments != []
    ensures var index := Index(s, segments[0]);
      InOrder(s, segments) <==>
      index != -1 && InOrder(s[index + |segments[0]|..], segments[1..])
  {
    var seg := segments[0];
    var rest := segments[1..];
    var index := Index(s, seg);
    if InOrder(s, segments) {
      var k :| OccursAt(s, seg, k) && InOrder(s[k + |seg|..], rest);
      assert index != -1 && index <= k;
      var after := s[index + |seg|..];
      InOrderExtend(s[index + |seg|..k + |seg|], s[k + |seg|..], rest);
      assert s[index + |seg|..k + |seg|] + s[k + |seg|..] == after;
    }
  }

  /** The scan never needs to backtrack: taking first occurrences succeeds
      exactly when some non-overlapping left-to-right placement exists. */
  lemma {:induction false} GreedyScanComplete(s: string, segments: seq<string>)
    ensures GreedyScan(s, segments) <==> InOrder(s, segments)
    decreases |segments|
  {
    if segments != [] {
      var seg := segments[0];
      var rest := segments[1..];
      if seg == "" {
        GreedyScanComplete(s, rest);
        EmptySegmentSkips(s, segments);
      } else {
        FirstOccurrenceSuffices(s, segments);
        var index := Index(s, seg);
        if index != -1 {
          GreedyScanComplete(s[index + |seg|..], rest);
        }
      }
    }
  }

  /** Rule 5 answers true exactly when the path starts with the first
      segment, ends with the last, and all segments occur in order without
      overlapping. */
  lemma SegmentsMatchMeaning(path: string, segments: seq<string>)
    requires |segments| >= 1
    ensures SegmentsMatch(path, segments) <==>
      HasPrefix(path, segments[0]) && HasSuffix(path, segments[|segments| - 1]) && InOrder(path, segments)
  {
    GreedyScanComplete(path, segments);
    assert path[..0] == [] && path[|path|..] == [];
  }

  /** Rule 4: a pattern `P*` matches every path that starts with P. */
  lemma StartsWithPattern(path: string, p: string)
    requires !Glob.BadPattern(p + "*")
    requires HasPrefix(path, p)
    ensures MatchWildcard(path, p + "*")
  {
    var pattern := p + "*";
    assert pattern[..|pattern| - 1] == p;
    assert HasSuffix(pattern, "*");
  }

  /** Rule 3: a pattern `*S` matches every path that ends with S. */
  lemma EndsWithPattern(path: string, s: string)
    requires !Glob.BadPattern("*" + s)
    requires HasSuffix(path, s)
    ensures MatchWildcard(path, "*" + s)
  {
    var pattern := "*" + s;
    assert pattern[1..] == s;
    assert HasPrefix(pattern, "*");
  }

  /** A pattern with no wildcard in it matches only the identical string. */
  lemma LiteralPattern(path: string, pattern: string)
    requires !Glob.BadPattern(pattern)
    requires '*' !in pattern && '?' !in pattern
    ensures MatchWildcard(path, pattern) <==> path == pattern
  {
    Glob.LiteralMatch(pattern, path);
    NoRecursiveForm(pattern);
    NoStarAtEnds(pattern);
    assert multiset(pattern)['*'] == 0;
  }

  // A pattern without a star has no recursive form in it.
  lemma NoRecursiveForm(pattern: string)
    requires '*' !in pattern
    ensures !Contains(pattern, "**/")
  {
    var k := Index(pattern, "**/");
    if k >= 0 {
      OccursAtHead(pattern, "**/", k);
    }
  }

  /** A pattern without '*' neither starts nor ends with one. */
  lemma NoStarAtEnds(pattern: string)
    requires '*' !in pattern
    ensures !HasPrefix(pattern, "*") && !HasSuffix(pattern, "*")
  {
    if |pattern| > 0 {
      assert pattern[..1][0] == pattern[0];
      assert pattern[|pattern| - 1..][0] == pattern[|pattern| - 1];
    }
  }

  lemma {:induction false} SubPathMatchesFrom(suffix: string, dirs: seq<string>, i: nat, j: nat)
    requires i <= j < |dirs|
    requires !Glob.BadPattern(suffix) && Glob.Match(suffix, Join(dirs[j..], "/"))
    ensures SubPathMatches(suffix, dirs, i)
    decreases j - i
  {
    if i < j {
      SubPathMatchesFrom(suffix, dirs, i + 1, j);
    }
  }

  lemma SuffixOfPatternNotBad(pattern: string, prefix: string, suffix: string)
    requires Split(pattern, "**/") == [prefix, suffix]
    requires !Glob.BadPattern(pattern)
    ensures pattern == prefix + "**/" + suffix
    ensures !Glob.BadPattern(suffix) && Contains(pattern, "**/")
  {
    JoinSplit(pattern, "**/");
    assert Join([prefix, suffix], "**/") == prefix + "**/" + suffix;
    assert forall k :: 0 <= k < |suffix| ==> suffix[k] == pattern[|prefix| + 3 + k];
  }

  // Rule 2: `prefix**/suffix` matches a path made of the prefix and a
  // remainder that the suffix glob-matches as a whole.
  lemma RecursiveFormHere(path: string, pattern: string, prefix: string, suffix: string, t: string)
    requires Split(pattern, "**/") == [prefix, suffix]
    requires !Glob.BadPattern(pattern)
    requires path == prefix + t
    requires Glob.Match(suffix, t)
    ensures MatchWildcard(path, pattern)
  {
    SuffixOfPatternNotBad(pattern, prefix, suffix);
    var rest := if prefix != "" then path[|prefix|..] else path;
    assert rest == t;
    var dirs := Split(t, "/");
    JoinSplit(t, "/");
    assert dirs[0..] == dirs;
    SubPathMatchesFrom(suffix, dirs, 0, 0);
    assert RecursiveMatch(path, pattern);
  }

  // Rule 2: `**/` also skips any number of leading directories: after the
  // prefix and any text ending in `/`, a remainder the suffix glob-matches
  // makes the whole path match.
  lemma RecursiveFormBelow(path: string, pattern: string, prefix: string, suffix: string, d: string, t: string)
    requires Split(pattern, "**/") == [prefix, suffix]
    requires !Glob.BadPattern(pattern)
    requires path == prefix + d + "/" + t
    requires Glob.Match(suffix, t)
    ensures MatchWildcard(path, pattern)
  {
    SuffixOfPatternNotBad(pattern, prefix, suffix);
    var rest := if prefix != "" then path[|prefix|..] else path;
    assert rest == d + ['/'] + t;
    SubPathBelow(suffix, d, t);
    assert RecursiveMatch(path, pattern);
  }

  /** The sub-path scan reaches the slice that starts right after d/. */
  lemma SubPathBelow(suffix: string, d: string, t: string)
    requires !Glob.BadPattern(suffix) && Glob.Match(suffix, t)
    ensures SubPathMatches(suffix, Split(d + ['/'] + t, "/"), 0)
  {
    SplitAround(d, '/', t);
    var dirs := Split(d + ['/'] + t, "/");
    var j := |Split(d, "/")|;
    assert dirs[j..] == Split(t, "/");
    assert Join(dirs[j..], "/") == t by {
      JoinSplit(t, "/");
    }
    SubPathMatchesFrom(suffix, dirs, 0, j);
  }
}
