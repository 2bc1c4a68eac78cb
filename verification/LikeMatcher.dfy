/**
 The LIKE matcher: '%' stands for any run of characters, '_' for any one, everything else for
 itself.
*/
module LikeMatcher {
  /** The matcher as it recurses over value and pattern. */
  predicate Matches(value: string, pattern: string)
    decreases |pattern|, |value|
  {
    if pattern == [] then value == []
    else if pattern[0] == '%' then Matches(value, pattern[1..]) || (value != [] && Matches(value[1..], pattern))
    else if pattern[0] == '_' then value != [] && Matches(value[1..], pattern[1..])
    else value != [] && value[0] == pattern[0] && Matches(value[1..], pattern[1..])
  }

  /** What one pattern character stands for. */
  predicate Stands(c: char, part: string) {
    if c == '%' then true else if c == '_' then |part| == 1 else part == [c]
  }

  function Join(parts: seq<string>): string {
    if parts == [] then [] else parts[0] + Join(parts[1..])
  }

  /** The value is cut into one part per pattern character. */
  ghost predicate IsCut(value: string, pattern: string, parts: seq<string>) {
    && |parts| == |pattern| && Join(parts) == value
    && forall i :: 0 <= i < |pattern| ==> Stands(pattern[i], parts[i])
  }

  ghost predicate Like(value: string, pattern: string) {
    exists parts :: IsCut(value, pattern, parts)
  }

  lemma {:induction false} MatchesHasCut(value: string, pattern: string) returns (parts: seq<string>)
    requires Matches(value, pattern)
    ensures IsCut(value, pattern, parts)
    decreases |pattern|, |value|
  {
    if pattern == [] {
      parts := [];
    } else if pattern[0] == '%' && Matches(value, pattern[1..]) {
      var rest := MatchesHasCut(value, pattern[1..]);
      assert [] + value == value;
      parts := [[]] + rest;
    } else if pattern[0] == '%' {
      var more := MatchesHasCut(value[1..], pattern);
      var rest := more[1..];
      assert IsCut(Join(rest), pattern[1..], rest);
      assert value == [value[0]] + value[1..];
      assert ([value[0]] + more[0]) + Join(rest) == value;
      parts := [[value[0]] + more[0]] + rest;
    } else {
      var rest := MatchesHasCut(value[1..], pattern[1..]);
      assert [value[0]] + value[1..] == value;
      parts := [[value[0]]] + rest;
    }
  }

  /** '%' passes over any run of characters. */
  lemma {:induction false} SkipRun(run: string, value: string, pattern: string)
    requires pattern != [] && pattern[0] == '%' && Matches(value, pattern[1..])
    ensures Matches(run + value, pattern)
    decreases |run|
  {
    if run == [] {
      assert run + value == value;
    } else {
      SkipRun(run[1..], value, pattern);
      assert (run + value)[1..] == run[1..] + value;
    }
  }

  lemma {:induction false} CutMatches(value: string, pattern: string, parts: seq<string>)
    requires IsCut(value, pattern, parts)
    ensures Matches(value, pattern)
    decreases |pattern|
  {
    if pattern != [] {
      var part, rest := parts[0], Join(parts[1..]);
      CutMatches(rest, pattern[1..], parts[1..]);
      assert value == part + rest;
      if pattern[0] == '%' {
        SkipRun(part, rest, pattern);
      } else {
        assert value[1..] == rest && value[0] == part[0];
      }
    }
  }

  /** The matcher decides exactly the declarative LIKE. */
  lemma MatchesIffLike(value: string, pattern: string)
    ensures Matches(value, pattern) <==> Like(value, pattern)
  {
    if Matches(value, pattern) {
      var parts := MatchesHasCut(value, pattern);
    }
    if parts :| IsCut(value, pattern, parts) {
      CutMatches(value, pattern, parts);
    }
  }

  // ---- Concatenated patterns ----

  lemma {:induction false} JoinAppend(a: seq<string>, b: seq<string>)
    ensures Join(a + b) == Join(a) + Join(b)
    decreases |a|
  {
    if a == [] {
      assert a + b == b;
    } else {
      assert (a + b)[1..] == a[1..] + b;
      JoinAppend(a[1..], b);
    }
  }

  lemma CutsAppend(u: string, v: string, p: string, q: string, a: seq<string>, b: seq<string>)
    requires IsCut(u, p, a) && IsCut(v, q, b)
    ensures IsCut(u + v, p + q, a + b)
  {
    JoinAppend(a, b);
  }

  lemma CutSplits(value: string, p: string, q: string, parts: seq<string>)
    requires IsCut(value, p + q, parts)
    ensures var a, b := parts[..|p|], parts[|p|..];
            value == Join(a) + Join(b) && IsCut(Join(a), p, a) && IsCut(Join(b), q, b)
  {
    var a, b := parts[..|p|], parts[|p|..];
    assert parts == a + b;
    JoinAppend(a, b);
    forall i | 0 <= i < |q|
      ensures Stands(q[i], b[i])
    {
      assert (p + q)[|p| + i] == q[i] && parts[|p| + i] == b[i];
    }
    forall i | 0 <= i < |p|
      ensures Stands(p[i], a[i])
    {
      assert (p + q)[i] == p[i] && parts[i] == a[i];
    }
  }

  ghost predicate SplitsAt(value: string, p: string, q: string, k: nat) {
    k <= |value| && Matches(value[..k], p) && Matches(value[k..], q)
  }

  lemma FindSplit(value: string, p: string, q: string) returns (k: nat)
    requires Matches(value, p + q)
    ensures SplitsAt(value, p, q, k)
  {
    var parts := MatchesHasCut(value, p + q);
    CutSplits(value, p, q, parts);
    var a, b := parts[..|p|], parts[|p|..];
    k := |Join(a)|;
    assert value[..k] == Join(a) && value[k..] == Join(b);
    CutMatches(value[..k], p, a);
    CutMatches(value[k..], q, b);
  }

  lemma SplitMatches(value: string, p: string, q: string, k: nat)
    requires SplitsAt(value, p, q, k)
    ensures Matches(value, p + q)
  {
    var a := MatchesHasCut(value[..k], p);
    var b := MatchesHasCut(value[k..], q);
    CutsAppend(value[..k], value[k..], p, q, a, b);
    assert value == value[..k] + value[k..];
    CutMatches(value, p + q, a + b);
  }

  /** A value matches two patterns in a row exactly when it splits into a match of each. */
  lemma MatchesConcatenation(value: string, p: string, q: string)
    ensures Matches(value, p + q) <==> exists k: nat :: SplitsAt(value, p, q, k)
  {
    if Matches(value, p + q) {
      var k := FindSplit(value, p, q);
    }
    if k: nat :| SplitsAt(value, p, q, k) {
      SplitMatches(value, p, q, k);
    }
  }
}
