/** Which stored patterns can ever match: validity alone does not rule out a rule without effect. */
module Patterns {
  import opened Paths
  import opened Glob

  /** The bytes of the segments, counting one separator for each. */
  function Span(segments: seq<string>): nat {
    if segments == [] then 0 else |segments[0]| + 1 + Span(segments[1..])
  }

  function Glue(segments: seq<string>): string
    requires segments != []
  {
    if |segments| == 1 then segments[0] else segments[0] + "/" + Glue(segments[1..])
  }

  /** The fewest and shortest segments a pattern could take: nothing for `**`, one letter for `*`. */
  function Shortest(pattern: seq<string>): seq<string> {
    if pattern == [] then []
    else if pattern[0] == "**" then Shortest(pattern[1..])
    else [if pattern[0] == "*" then "a" else pattern[0]] + Shortest(pattern[1..])
  }

  predicate ShortSegments(pattern: seq<string>) {
    forall i :: 0 <= i < |pattern| ==> |pattern[i]| <= MAX_SEGMENT_LEN
  }

  /** What a caller would have to check before storing a pattern to know that it can take effect. */
  predicate CanMatch(pattern: string) {
    var segments := Split(pattern);
    ShortSegments(segments) && |Shortest(segments)| <= MAX_SEGMENTS && Span(Shortest(segments)) <= MAX_PATH_LEN + 1
  }

  // ----- joining -----

  lemma {:induction false} SpanOfSplit(s: string)
    ensures Span(Split(s)) == |s| + 1
  {
    if s != [] {
      SpanOfSplit(s[1..]);
      var rest := Split(s[1..]);
      if s[0] == '/' {
        assert ([[]] + rest)[1..] == rest;
      } else {
        assert Split(s)[1..] == rest[1..];
      }
    }
  }

  lemma {:induction false} SplitOfGlue(segments: seq<string>)
    requires segments != [] && forall i :: 0 <= i < |segments| ==> NoSlash(segments[i])
    ensures Split(Glue(segments)) == segments
  {
    if |segments| == 1 {
      SplitNoSlash(segments[0]);
    } else {
      SplitOfGlue(segments[1..]);
      SplitAtSlash(segments[0], Glue(segments[1..]));
      SplitNoSlash(segments[0]);
    }
  }

  lemma SegmentHasNoSlash(s: string)
    requires ValidSegment(s)
    ensures NoSlash(s)
  {
  }

  // ----- no match is shorter -----

  /** Whatever a pattern matches has at least as many segments, and bytes, as its shortest filling. */
  lemma {:induction false} NothingShorterMatches(pattern: seq<string>, path: seq<string>)
    requires Matches(pattern, path) && forall i :: 0 <= i < |path| ==> ValidSegment(path[i])
    ensures ShortSegments(pattern) && |Shortest(pattern)| <= |path| && Span(Shortest(pattern)) <= Span(path)
    decreases |pattern| + |path|
  {
    if pattern != [] {
      assert pattern == [pattern[0]] + pattern[1..];
      if pattern[0] == "**" {
        if Matches(pattern[1..], path) {
          NothingShorterMatches(pattern[1..], path);
        } else {
          NothingShorterMatches(pattern, path[1..]);
        }
      } else {
        NothingShorterMatches(pattern[1..], path[1..]);
        assert ValidSegment(path[0]);
      }
    }
  }

  // ----- the shortest filling matches -----

  lemma {:induction false} ShortestMatches(pattern: seq<string>)
    ensures Matches(pattern, Shortest(pattern))
  {
    if pattern != [] {
      ShortestMatches(pattern[1..]);
      if pattern[0] != "**" {
        assert Shortest(pattern)[1..] == Shortest(pattern[1..]);
      }
    }
  }

  lemma {:induction false} ShortestIsValid(pattern: seq<string>)
    requires ShortSegments(pattern) && forall i :: 0 <= i < |pattern| ==> ValidPatternSegment(pattern[i])
    ensures forall i :: 0 <= i < |Shortest(pattern)| ==> ValidSegment(Shortest(pattern)[i])
  {
    if pattern != [] {
      ShortestIsValid(pattern[1..]);
      assert ValidPatternSegment(pattern[0]) && |pattern[0]| <= MAX_SEGMENT_LEN;
      assert ValidSegment("a");
    }
  }

  /** A path the pattern matches: its shortest filling, or one letter where it needs no segment at all. */
  function Filling(pattern: seq<string>): (r: seq<string>)
    ensures r != []
  {
    if Shortest(pattern) == [] then ["a"] else Shortest(pattern)
  }

  lemma FillingMatches(pattern: seq<string>)
    requires pattern != []
    ensures Matches(pattern, Filling(pattern))
  {
    ShortestMatches(pattern);
    if Shortest(pattern) == [] {
      assert pattern[0] == "**";
      assert ["a"][1..] == [];
    }
  }

  lemma FillingIsAPath(pattern: string) returns (path: SecretPath)
    requires ValidPattern(pattern) && CanMatch(pattern)
    ensures Matches(Split(pattern), Split(path))
  {
    var (segments, filling) := (Split(pattern), Filling(Split(pattern)));
    FillingMatches(segments);
    ShortestIsValid(segments);
    assert ValidSegment("a");
    assert Span(["a"]) == 2;
    forall i | 0 <= i < |filling| ensures NoSlash(filling[i]) {
      SegmentHasNoSlash(filling[i]);
    }
    SplitOfGlue(filling);
    SpanOfSplit(Glue(filling));
    assert ValidSegment(filling[0]);
    assert |Glue(filling)| >= 1;
    path := Glue(filling);
  }

  /**
   * A well-formed pattern matches some secret path exactly when its literals are no longer than a segment may be
   * and its shortest filling has at most 16 segments and fits in 512 bytes.
   */
  lemma PatternCanMatch(pattern: string)
    requires ValidPattern(pattern)
    ensures (exists path: SecretPath :: Matches(Split(pattern), Split(path))) <==> CanMatch(pattern)
  {
    if CanMatch(pattern) {
      var path := FillingIsAPath(pattern);
    }
    if path: SecretPath :| Matches(Split(pattern), Split(path)) {
      NothingShorterMatches(Split(pattern), Split(path));
      SpanOfSplit(path);
    }
  }

  /** A path is exactly a well-formed pattern without wildcards that keeps within the limits of a path. */
  lemma LiteralPatternsArePaths(p: string)
    ensures ValidPath(p) <==>
      && ValidPattern(p) && AllLiteral(Split(p))
      && |p| <= MAX_PATH_LEN && |Split(p)| <= MAX_SEGMENTS && ShortSegments(Split(p))
  {
    hide Split, SegmentChars;
    if ValidPath(p) {
      ValidSegmentsAreLiteral(p);
      forall i | 0 <= i < |Split(p)| ensures ValidPatternSegment(Split(p)[i]) && |Split(p)[i]| <= MAX_SEGMENT_LEN {
        assert ValidSegment(Split(p)[i]);
      }
    }
    if ValidPattern(p) && AllLiteral(Split(p)) && ShortSegments(Split(p)) {
      forall i | 0 <= i < |Split(p)| ensures ValidSegment(Split(p)[i]) {
        assert ValidPatternSegment(Split(p)[i]);
      }
    }
  }

  /** Well-formed patterns are closed under joining, and both wildcards are such patterns. */
  lemma PatternsJoin(p: string, q: string)
    requires ValidPattern(p)
    ensures ValidPattern(p + "/" + q) <==> ValidPattern(q)
    ensures ValidPattern("*") && ValidPattern("**")
  {
    SplitAtSlash(p, q);
    SplitNoSlash("*");
    SplitNoSlash("**");
    SplitNoSlash("");
    hide Split;
    var (a, b) := (Split(p), Split(q));
    forall i | 0 <= i < |b| ensures (a + b)[|a| + i] == b[i] {
    }
  }

  function Letters(n: nat): string {
    seq(n, _ => 'a')
  }

  /** A well-formed pattern that no secret path matches: one literal of 65 letters. */
  lemma UnmatchableButValid()
    ensures ValidPattern(Letters(65))
    ensures forall path: SecretPath :: !Matches(Split(Letters(65)), Split(path))
  {
    hide Split, Matches, Shortest, Span;
    var s := Letters(65);
    SplitNoSlash(s);
    assert |s| == 65 && Split(s)[0] == s;
    assert s != "." && s != "..";
    assert !CanMatch(s);
    PatternCanMatch(s);
  }
}
