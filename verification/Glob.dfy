/** Segment-aware glob matching: the table-driven matcher and the recursive meaning it computes. */
module Glob {
  import opened Paths

  /** What a pattern means: a literal or `*` takes one segment, `**` takes any number. */
  predicate Matches(pattern: seq<string>, path: seq<string>)
    decreases |pattern| + |path|
  {
    if pattern == [] then path == []
    else if pattern[0] == "**" then
      Matches(pattern[1..], path) || (path != [] && Matches(pattern, path[1..]))
    else
      path != [] && (pattern[0] == "*" || path[0] == pattern[0]) && Matches(pattern[1..], path[1..])
  }

  /** Some prefix of the path is taken by the first part of the pattern, the rest by the second. */
  ghost predicate SplitMatch(p: seq<string>, q: seq<string>, path: seq<string>) {
    exists k :: 0 <= k <= |path| && Matches(p, path[..k]) && Matches(q, path[k..])
  }

  lemma {:induction false} MatchesConcat(p: seq<string>, q: seq<string>, path: seq<string>)
    ensures Matches(p + q, path) <==> SplitMatch(p, q, path)
    decreases |p| + |path|
  {
    if p == [] {
      assert p + q == q;
      assert path[..0] == [] && path[0..] == path;
    } else {
      assert (p + q)[0] == p[0] && (p + q)[1..] == p[1..] + q;
      if p[0] == "**" {
        MatchesConcat(p[1..], q, path);
        if path != [] {
          MatchesConcat(p, q, path[1..]);
        }
        StarStarSplits(p, q, path);
      } else if path != [] {
        MatchesConcat(p[1..], q, path[1..]);
        OneSegmentSplits(p, q, path);
      }
    }
  }

  lemma StarStarSplits(p: seq<string>, q: seq<string>, path: seq<string>)
    requires p != [] && p[0] == "**"
    ensures SplitMatch(p, q, path) <==>
      SplitMatch(p[1..], q, path) || (path != [] && SplitMatch(p, q, path[1..]))
  {
    forall k | 0 <= k <= |path|
      ensures Matches(p, path[..k]) <==>
        Matches(p[1..], path[..k]) || (k > 0 && Matches(p, path[1..][..k - 1]))
      ensures k > 0 ==> path[1..][k - 1..] == path[k..]
    {
      if k > 0 {
        assert path[..k][1..] == path[1..][..k - 1];
      }
    }
    if SplitMatch(p, q, path) {
      var k :| 0 <= k <= |path| && Matches(p, path[..k]) && Matches(q, path[k..]);
      assert Matches(p[1..], path[..k]) || (k > 0 && Matches(p, path[1..][..k - 1]) && Matches(q, path[1..][k - 1..]));
    }
    if path != [] && SplitMatch(p, q, path[1..]) {
      var k :| 0 <= k <= |path[1..]| && Matches(p, path[1..][..k]) && Matches(q, path[1..][k..]);
      assert path[1..][k..] == path[k + 1..];
      assert path[1..][..(k + 1) - 1] == path[1..][..k];
      assert Matches(p, path[..k + 1]);
    }
  }

  lemma OneSegmentSplits(p: seq<string>, q: seq<string>, path: seq<string>)
    requires p != [] && p[0] != "**" && path != []
    ensures SplitMatch(p, q, path) <==>
      (p[0] == "*" || path[0] == p[0]) && SplitMatch(p[1..], q, path[1..])
  {
    forall k | 1 <= k <= |path|
      ensures path[..k][1..] == path[1..][..k - 1] && path[1..][k - 1..] == path[k..]
    {
    }
    if SplitMatch(p, q, path) {
      var k :| 0 <= k <= |path| && Matches(p, path[..k]) && Matches(q, path[k..]);
      assert k > 0;
      assert Matches(p[1..], path[1..][..k - 1]) && Matches(q, path[1..][k - 1..]);
    }
    if (p[0] == "*" || path[0] == p[0]) && SplitMatch(p[1..], q, path[1..]) {
      var k :| 0 <= k <= |path[1..]| && Matches(p[1..], path[1..][..k]) && Matches(q, path[1..][k..]);
      assert path[..k + 1][1..] == path[1..][..k];
      assert Matches(p, path[..k + 1]) && Matches(q, path[k + 1..]);
    }
  }

  /** One more pattern segment: where the match can end now, given where it could end before. */
  lemma MatchesSnoc(p: seq<string>, segment: string, path: seq<string>)
    ensures Matches(p + [segment], path) <==>
      if segment == "**" then exists k :: 0 <= k <= |path| && Matches(p, path[..k])
      else
        && path != [] && (segment == "*" || path[|path| - 1] == segment)
        && Matches(p, path[..|path| - 1])
  {
    MatchesConcat(p, [segment], path);
    if segment == "**" {
      forall k | 0 <= k <= |path| ensures Matches([segment], path[k..]) {
        StarStarTakesAll(path[k..]);
      }
    } else {
      forall k | 0 <= k <= |path|
        ensures Matches([segment], path[k..]) <==>
          k == |path| - 1 && (segment == "*" || path[|path| - 1] == segment)
      {
        assert [segment][1..] == [];
        if k < |path| {
          assert path[k..][1..] == path[k + 1..];
        }
      }
    }
  }

  lemma {:induction false} StarStarTakesAll(path: seq<string>)
    ensures Matches(["**"], path)
  {
    assert ["**"][1..] == [];
    if path != [] {
      StarStarTakesAll(path[1..]);
    }
  }

  /** A pattern no prefix of the path can satisfy is hopeless whatever follows it. */
  lemma NoPrefixNoMatch(p: seq<string>, q: seq<string>, path: seq<string>)
    requires forall j :: 0 <= j <= |path| ==> !Matches(p, path[..j])
    ensures !Matches(p + q, path)
  {
    MatchesConcat(p, q, path);
  }

  /** `reachable[j]` says whether the segments of `pattern` so far can end at path segment `j`. */
  ghost predicate Reaches(reachable: seq<bool>, pattern: seq<string>, path: seq<string>) {
    && |reachable| == |path| + 1
    && forall j :: 0 <= j <= |path| ==> (reachable[j] <==> Matches(pattern, path[..j]))
  }

  /** One row of the table, computed in place from the row before. */
  method NextRow(reachable: array<bool>, segment: string, path: seq<string>, ghost done: seq<string>)
    returns (next: array<bool>)
    requires Reaches(reachable[..], done, path)
    ensures fresh(next)
    ensures Reaches(next[..], done + [segment], path)
  {
    next := new bool[|path| + 1](_ => false);
    if segment == "**" {
      var carried := false;
      var j := 0;
      while j <= |path|
        invariant 0 <= j <= |path| + 1
        invariant carried <==> exists k :: 0 <= k < j && Matches(done, path[..k])
        invariant forall i :: 0 <= i < j ==> (next[i] <==> exists k :: 0 <= k <= i && Matches(done, path[..k]))
      {
        assert reachable[..][j] <==> Matches(done, path[..j]);
        carried := carried || reachable[j];
        next[j] := carried;
        j := j + 1;
      }
      forall j | 0 <= j <= |path| ensures next[j] <==> Matches(done + [segment], path[..j]) {
        MatchesSnoc(done, segment, path[..j]);
        assert forall k :: 0 <= k <= j ==> path[..j][..k] == path[..k];
      }
    } else {
      var j := 0;
      while j < |path|
        invariant 0 <= j <= |path|
        invariant !next[0]
        invariant forall i :: 0 <= i < j ==>
          (next[i + 1] <==> Matches(done, path[..i]) && (segment == "*" || path[i] == segment))
      {
        assert reachable[..][j] <==> Matches(done, path[..j]);
        next[j + 1] := reachable[j] && (segment == "*" || path[j] == segment);
        j := j + 1;
      }
      forall j | 0 <= j <= |path| ensures next[j] <==> Matches(done + [segment], path[..j]) {
        MatchesSnoc(done, segment, path[..j]);
        if j > 0 {
          assert path[..j][..j - 1] == path[..j - 1];
          assert next[(j - 1) + 1] <==> Matches(done, path[..j - 1]) && (segment == "*" || path[j - 1] == segment);
        }
      }
    }
  }

  method AnyTrue(row: array<bool>) returns (b: bool)
    ensures b <==> exists j :: 0 <= j < row.Length && row[j]
  {
    var j := 0;
    while j < row.Length
      invariant 0 <= j <= row.Length
      invariant forall i :: 0 <= i < j ==> !row[i]
    {
      if row[j] {
        return true;
      }
      j := j + 1;
    }
    return false;
  }

  /** The table-driven matcher, early exit included, decides exactly the recursive meaning. */
  method MatchesByTable(pattern: string, path: string) returns (b: bool)
    ensures b <==> Matches(Split(pattern), Split(path))
  {
    var (segments, target) := (Split(pattern), Split(path));
    var reachable := new bool[|target| + 1](_ => false);
    reachable[0] := true;
    var i := 0;
    assert Reaches(reachable[..], segments[..0], target);
    while i < |segments|
      invariant 0 <= i <= |segments|
      invariant Reaches(reachable[..], segments[..i], target)
    {
      reachable := NextRow(reachable, segments[i], target, segments[..i]);
      assert segments[..i + 1] == segments[..i] + [segments[i]];
      i := i + 1;
      var any := AnyTrue(reachable);
      if !any {
        forall j | 0 <= j <= |target| ensures !Matches(segments[..i], target[..j]) {
          assert reachable[..][j] == reachable[j];
        }
        NoPrefixNoMatch(segments[..i], segments[i..], target);
        assert segments[..i] + segments[i..] == segments;
        return false;
      }
    }
    assert segments[..i] == segments && target[..|target|] == target;
    assert reachable[..][|target|] <==> Matches(segments, target);
    return reachable[|target|];
  }

  // ----- patterns a policy may hold -----

  predicate ValidPatternSegment(s: string) {
    s == "*" || s == "**" || (s != "" && s != "." && s != ".." && SegmentChars(s))
  }

  predicate ValidPattern(pattern: string) {
    pattern != "" && forall i :: 0 <= i < |Split(pattern)| ==> ValidPatternSegment(Split(pattern)[i])
  }

  predicate AllLiteral(pattern: seq<string>) {
    forall i :: 0 <= i < |pattern| ==> pattern[i] != "*" && pattern[i] != "**"
  }

  lemma {:induction false} LiteralsMatchThemselves(p: seq<string>, path: seq<string>)
    requires AllLiteral(p)
    ensures Matches(p, path) <==> p == path
  {
    if p != [] && path != [] {
      LiteralsMatchThemselves(p[1..], path[1..]);
      assert p == [p[0]] + p[1..] && path == [path[0]] + path[1..];
    }
  }

  lemma LiteralsThenStarStar(p: seq<string>, path: seq<string>)
    requires AllLiteral(p)
    ensures Matches(p + ["**"], path) <==> p <= path
  {
    MatchesSnoc(p, "**", path);
    forall k | 0 <= k <= |path| ensures Matches(p, path[..k]) <==> p == path[..k] {
      LiteralsMatchThemselves(p, path[..k]);
    }
    if p <= path {
      assert p == path[..|p|];
    }
  }

  lemma ValidSegmentsAreLiteral(p: string)
    requires ValidPath(p)
    ensures AllLiteral(Split(p))
  {
  }

  /**
   * Under a valid path `p`, three ways: the policy glob that appends `**`, the segment-aware prefix test and the
   * substring test of `list` agree on every path, with or without a slash after `p` where a prefix is taken.
   */
  lemma UnderAgreesThreeWays(p: SecretPath, path: SecretPath)
    ensures Matches(Split(p + "/**"), Split(path)) <==> StartsWithPrefix(path, p)
    ensures StartsWithPrefix(path, p) <==> StartsWithPrefix(path, p + "/")
    ensures StartsWithPrefix(path, p) <==> ListedUnder(path, p)
    ensures ListedUnder(path, p) <==> ListedUnder(path, p + "/")
  {
    StrippedValidPath(p);
    PrefixTestsAgree(path, p);
    PrefixTestsAgree(path, p + "/");
    assert p + "/**" == p + "/" + "**";
    SplitAtSlash(p, "**");
    SplitNoSlash("**");
    ValidSegmentsAreLiteral(p);
    LiteralsThenStarStar(Split(p), Split(path));
    PrefixOfPieces(p, path);
    if p <= path && |path| > |p| {
      assert path[..|p| + 1] == p + [path[|p|]];
    }
  }
}
