/** Secret paths, and the prefix tests that decide what lies under one. */
module Paths {

  const MAX_SEGMENTS := 16
  const MAX_SEGMENT_LEN := 64
  const MAX_PATH_LEN := 512

  /** `str::split('/')`: one more piece than there are slashes. */
  function Split(s: string): (r: seq<string>)
    ensures |r| >= 1
  {
    if s == [] then [[]]
    else
      var rest := Split(s[1..]);
      if s[0] == '/' then [[]] + rest else [[s[0]] + rest[0]] + rest[1..]
  }

  predicate SegmentChar(c: char) {
    'a' <= c <= 'z' || '0' <= c <= '9' || c == '_' || c == '-' || c == '.'
  }

  predicate SegmentChars(s: string) {
    forall i :: 0 <= i < |s| ==> SegmentChar(s[i])
  }

  predicate ValidSegment(s: string) {
    s != "" && |s| <= MAX_SEGMENT_LEN && s != "." && s != ".." && SegmentChars(s)
  }

  predicate ValidPath(raw: string) {
    && 1 <= |raw| <= MAX_PATH_LEN
    && |Split(raw)| <= MAX_SEGMENTS
    && forall i :: 0 <= i < |Split(raw)| ==> ValidSegment(Split(raw)[i])
  }

  /** The limits and characters of a path, in figures. */
  lemma ValidPathMeans(raw: string)
    ensures ValidPath(raw) <==>
      && raw != "" && |raw| <= 512 && |Split(raw)| <= 16
      && forall i :: 0 <= i < |Split(raw)| ==>
           var s := Split(raw)[i];
           && s != "" && s != "." && s != ".." && |s| <= 64
           && forall c :: c in s ==> c in "abcdefghijklmnopqrstuvwxyz0123456789_-."
  {
    forall s: string ensures SegmentChars(s) <==> forall c :: c in s ==> c in "abcdefghijklmnopqrstuvwxyz0123456789_-." {
      Alphabet();
    }
    hide Split, SegmentChars;
  }

  lemma Alphabet()
    ensures forall c: char :: SegmentChar(c) <==> c in "abcdefghijklmnopqrstuvwxyz0123456789_-."
  {
  }

  lemma WitnessPath()
    ensures ValidPath("a")
  {
    assert ['a'] + [] == "a";
    SplitNoSlash("a");
  }

  type SecretPath = s: string | ValidPath(s) ghost witness (WitnessPath(); "a")

  // ----- splitting -----

  predicate NoSlash(s: string) {
    forall i :: 0 <= i < |s| ==> s[i] != '/'
  }

  lemma {:induction false} SplitNoSlash(s: string)
    requires NoSlash(s)
    ensures Split(s) == [s]
  {
    if s != [] {
      SplitNoSlash(s[1..]);
      assert [s[0]] + s[1..] == s;
    }
  }

  /** Splitting at a slash: the pieces of the left part, then those of the right part. */
  lemma {:induction false} SplitAtSlash(s: string, t: string)
    ensures Split(s + "/" + t) == Split(s) + Split(t)
  {
    if s == [] {
      assert (s + "/" + t)[1..] == t;
    } else {
      assert (s + "/" + t)[1..] == s[1..] + "/" + t;
      SplitAtSlash(s[1..], t);
    }
  }

  lemma {:induction false} PiecesHaveNoSlash(s: string, i: nat)
    requires i < |Split(s)|
    ensures NoSlash(Split(s)[i])
  {
    if s != [] {
      var rest := Split(s[1..]);
      if s[0] == '/' {
        if i > 0 {
          PiecesHaveNoSlash(s[1..], i - 1);
        }
      } else {
        PiecesHaveNoSlash(s[1..], i);
      }
    }
  }

  /** The strings that split into given pieces are unique. */
  lemma {:induction false} SplitInjective(s: string, t: string)
    requires Split(s) == Split(t)
    ensures s == t
  {
    if s == [] || t == [] {
      SplitEmpty(s);
      SplitEmpty(t);
    } else {
      var (p, q) := (Split(s[1..]), Split(t[1..]));
      assert Split(s)[0] == Split(t)[0];
      if s[0] == '/' || t[0] == '/' {
        assert Split(s)[1..] == Split(t)[1..];
        assert s[0] == t[0];
        assert p == Split(s)[1..] && q == Split(t)[1..];
      } else {
        assert Split(s)[0][0] == s[0] && Split(t)[0][0] == t[0];
        assert p[0] == Split(s)[0][1..] && q[0] == Split(t)[0][1..];
        assert p[1..] == Split(s)[1..] && q[1..] == Split(t)[1..];
        assert p == [p[0]] + p[1..] && q == [q[0]] + q[1..];
      }
      SplitInjective(s[1..], t[1..]);
      assert s == [s[0]] + s[1..] && t == [t[0]] + t[1..];
    }
  }

  lemma SplitEmpty(s: string)
    requires Split(s) == [[]]
    ensures s == []
  {
  }

  lemma SplitCons(c: char, s: string)
    ensures Split([c] + s) ==
      if c == '/' then [[]] + Split(s) else [[c] + Split(s)[0]] + Split(s)[1..]
  {
  }

  /** A cut of a string is a cut of that string with one more character in front. */
  lemma CutCons(c: char, left: string, right: string, k: nat)
    requires var pieces := Split(left + "/" + right);
      1 <= k < |pieces| && Split(left) == pieces[..k] && Split(right) == pieces[k..]
    ensures [c] + (left + "/" + right) == ([c] + left) + "/" + right
    ensures var (pieces, j) := (Split([c] + (left + "/" + right)), if c == '/' then k + 1 else k);
      j < |pieces| && Split([c] + left) == pieces[..j] && Split(right) == pieces[j..]
  {
    hide Split;
    SplitCons(c, left);
    SplitCons(c, left + "/" + right);
  }

  /** More pieces mean a slash to cut at. */
  lemma {:induction false} CutAfterPieces(s: string, k: nat) returns (left: string, right: string)
    requires 1 <= k < |Split(s)|
    ensures s == left + "/" + right
    ensures Split(left) == Split(s)[..k] && Split(right) == Split(s)[k..]
  {
    hide Split;
    if s == [] {
      SplitNoSlash(s);
    }
    var (c, tail) := (s[0], s[1..]);
    SplitCons(c, tail);
    assert s == [c] + tail;
    if c == '/' && k == 1 {
      left, right := [], tail;
      SplitNoSlash(left);
    } else {
      var j := if c == '/' then k - 1 else k;
      var l, r := CutAfterPieces(tail, j);
      CutCons(c, l, r, j);
      left, right := [c] + l, r;
    }
  }

  /** Leading pieces are exactly a prefix that stops at a slash or at the end. */
  lemma PrefixOfPieces(p: string, q: string)
    ensures Split(p) <= Split(q) <==> q == p || (p + "/") <= q
  {
    if Split(p) <= Split(q) {
      if |Split(p)| == |Split(q)| {
        assert Split(p) == Split(q);
        SplitInjective(p, q);
      } else {
        var left, right := CutAfterPieces(q, |Split(p)|);
        assert Split(left) == Split(p);
        SplitInjective(left, p);
      }
    }
    if (p + "/") <= q {
      var t := q[|p| + 1..];
      assert q == p + "/" + t;
      SplitAtSlash(p, t);
    }
  }

  /** Every character of a valid path is a slash or one a segment may hold. */
  lemma {:induction false} PathChars(s: string)
    requires forall i :: 0 <= i < |Split(s)| ==> SegmentChars(Split(s)[i])
    ensures forall i :: 0 <= i < |s| ==> s[i] == '/' || SegmentChar(s[i])
  {
    if s != [] {
      var (rest, all) := (Split(s[1..]), Split(s));
      if s[0] == '/' {
        forall i | 0 <= i < |rest| ensures SegmentChars(rest[i]) {
          assert all[i + 1] == rest[i];
        }
      } else {
        forall i | 0 <= i < |rest| ensures SegmentChars(rest[i]) {
          assert SegmentChars(all[i]);
          assert i > 0 ==> all[i] == rest[i];
          assert i == 0 ==> all[i][1..] == rest[i];
        }
        assert SegmentChars(all[0]) && all[0][0] == s[0];
      }
      PathChars(s[1..]);
    }
  }

  // ----- three notions of "under" -----

  function StripSlash(prefix: string): string {
    if prefix != [] && prefix[|prefix| - 1] == '/' then prefix[..|prefix| - 1] else prefix
  }

  function TrimSlashes(prefix: string): (r: string)
    ensures r == [] || r[|r| - 1] != '/'
    ensures r <= prefix
  {
    if prefix != [] && prefix[|prefix| - 1] == '/' then TrimSlashes(prefix[..|prefix| - 1]) else prefix
  }

  /** `SecretPath::starts_with_prefix`. */
  predicate StartsWithPrefix(path: string, prefix: string) {
    var p := StripSlash(prefix);
    p == [] || (p <= path && (path[|p|..] == [] || path[|p|] == '/'))
  }

  /** The condition `list` puts on a path: equality or a substring test, or nothing for an empty prefix. */
  predicate ListedUnder(path: string, prefix: string) {
    var p := TrimSlashes(prefix);
    var lead := if |path| <= |p| + 1 then path else path[..|p| + 1];
    prefix == [] || path == p || lead == p + "/"
  }

  lemma PrefixTestsAgree(path: string, prefix: string)
    requires prefix == [] || StripSlash(prefix) != []
    requires StripSlash(prefix) == TrimSlashes(prefix)
    ensures StartsWithPrefix(path, prefix) <==> ListedUnder(path, prefix)
  {
  }

  lemma TrailingSlash(p: string)
    requires p != [] && p[|p| - 1] == '/'
    ensures Split(p)[|Split(p)| - 1] == []
  {
  }

  lemma ValidEndsInSegmentChar(p: string)
    requires ValidPath(p)
    ensures p[|p| - 1] != '/'
  {
    if p[|p| - 1] == '/' {
      TrailingSlash(p);
    }
  }

  /** For a valid path, plain or with one slash after it, stripping and trimming both give it back. */
  lemma StrippedValidPath(p: string)
    requires ValidPath(p)
    ensures StripSlash(p) == TrimSlashes(p) == p
    ensures StripSlash(p + "/") == TrimSlashes(p + "/") == p
  {
    ValidEndsInSegmentChar(p);
    assert (p + "/")[..|p + "/"| - 1] == p;
  }

  // ----- where the two prefix tests agree -----

  /** With a lone slash they part: to one test it is no prefix at all, to the other the empty path. */
  lemma LoneSlashDisagrees()
    ensures ValidPath("a")
    ensures StartsWithPrefix("a", "/") && !ListedUnder("a", "/")
  {
    WitnessPath();
    assert "/"[..0] == [];
    assert TrimSlashes("/") == TrimSlashes([]) == [];
  }

  /** With a doubled trailing slash they part: `list` ignores both slashes, the other only one. */
  lemma DoubledSlashDisagrees()
    ensures ValidPath("a")
    ensures ListedUnder("a", "a//") && !StartsWithPrefix("a", "a//")
  {
    WitnessPath();
    assert "a//"[..2] == "a/" && "a/"[..1] == "a";
    assert TrimSlashes("a//") == TrimSlashes("a/") == TrimSlashes("a") == "a";
    assert StripSlash("a//") == "a/";
  }

  lemma TrimmedIsListed(prefix: string)
    requires StripSlash(prefix) != TrimSlashes(prefix)
    ensures ListedUnder(TrimSlashes(prefix), prefix) && !StartsWithPrefix(TrimSlashes(prefix), prefix)
    ensures StripSlash(prefix) != [] && StripSlash(prefix)[|StripSlash(prefix)| - 1] == '/'
  {
    var p := StripSlash(prefix);
    assert TrimSlashes(prefix) == TrimSlashes(p);
  }

  /** Over all strings the tests agree exactly for the empty prefix and for one with at most one trailing slash, not alone. */
  lemma PrefixTestsAgreeExactly(prefix: string)
    ensures (forall path: string :: StartsWithPrefix(path, prefix) <==> ListedUnder(path, prefix)) <==>
      prefix == [] || (StripSlash(prefix) != [] && StripSlash(prefix) == TrimSlashes(prefix))
  {
    if StripSlash(prefix) != TrimSlashes(prefix) {
      TrimmedIsListed(prefix);
    } else if prefix == [] || StripSlash(prefix) != [] {
      forall path: string ensures StartsWithPrefix(path, prefix) <==> ListedUnder(path, prefix) {
        PrefixTestsAgree(path, prefix);
      }
    } else {
      assert prefix == "/";
      LoneSlashDisagrees();
    }
  }

  lemma LeadingPathIsValid(p: string, path: string)
    requires ValidPath(path) && (p + "/") <= path
    ensures ValidPath(p)
  {
    PrefixOfPieces(p, path);
    forall i | 0 <= i < |Split(p)| ensures ValidSegment(Split(p)[i]) {
      assert Split(p)[i] == Split(path)[i];
    }
    assert ValidSegment(Split(p)[0]);
    SplitNoSlash([]);
    assert Split([])[0] == [] && !ValidSegment([]);
  }

  lemma NoPathUnderTrailingSlash(p: string, path: string)
    requires ValidPath(path) && p != [] && p[|p| - 1] == '/'
    ensures path != p && !((p + "/") <= path)
  {
    ValidEndsInSegmentChar(path);
    if (p + "/") <= path {
      LeadingPathIsValid(p, path);
      ValidEndsInSegmentChar(p);
    }
  }

  /**
   * Over the paths there are, they agree exactly unless the prefix is a lone slash, or a valid path with more
   * than one slash after it.
   */
  lemma PrefixTestsAgreeOnPaths(prefix: string)
    ensures (forall path: SecretPath :: StartsWithPrefix(path, prefix) <==> ListedUnder(path, prefix)) <==>
      prefix == [] || (StripSlash(prefix) != [] && (StripSlash(prefix) == TrimSlashes(prefix) || !ValidPath(TrimSlashes(prefix))))
  {
    hide ValidPath;
    var (p, t) := (StripSlash(prefix), TrimSlashes(prefix));
    if p == t && (prefix == [] || p != []) {
      forall path: SecretPath ensures StartsWithPrefix(path, prefix) <==> ListedUnder(path, prefix) {
        PrefixTestsAgree(path, prefix);
      }
    } else if p == [] {
      assert prefix == "/";
      LoneSlashDisagrees();
      var path: SecretPath := "a";
      assert StartsWithPrefix(path, prefix) && !ListedUnder(path, prefix);
    } else {
      TrimmedIsListed(prefix);
      if ValidPath(t) {
        var path: SecretPath := t;
        assert StartsWithPrefix(path, prefix) != ListedUnder(path, prefix);
      } else {
        forall path: SecretPath ensures !StartsWithPrefix(path, prefix) && !ListedUnder(path, prefix) {
          NothingUnder(prefix, path);
        }
      }
    }
  }

  lemma NothingUnder(prefix: string, path: SecretPath)
    requires StripSlash(prefix) != [] && StripSlash(prefix)[|StripSlash(prefix)| - 1] == '/'
    requires !ValidPath(TrimSlashes(prefix))
    ensures !StartsWithPrefix(path, prefix) && !ListedUnder(path, prefix)
  {
    hide ValidPath;
    var (p, t) := (StripSlash(prefix), TrimSlashes(prefix));
    assert p <= path && |path| > |p| && path[|p|] == '/' ==> (p + "/") <= path;
    NoPathUnderTrailingSlash(p, path);
    if ListedUnder(path, prefix) {
      assert path != t;
      assert (t + "/") <= path;
      LeadingPathIsValid(t, path);
    }
  }

  // ----- the order listings come in -----

  /** `ORDER BY path`: strictly before, character by character. */
  predicate Precedes(a: string, b: string) {
    b != [] && (a == [] || a[0] < b[0] || (a[0] == b[0] && Precedes(a[1..], b[1..])))
  }

  /** One string precedes another if it ends first, or at their first difference has the smaller character. */
  lemma {:induction false} PrecedesMeans(a: string, b: string)
    ensures Precedes(a, b) <==>
      exists k :: 0 <= k <= |a| && k < |b| && a[..k] == b[..k] && (k == |a| || a[k] < b[k])
  {
    if a == [] {
      if b != [] {
        assert a[..0] == b[..0];
      }
    } else if b != [] && a[0] == b[0] {
      PrecedesMeans(a[1..], b[1..]);
      if k :| 0 <= k <= |a[1..]| && k < |b[1..]| && a[1..][..k] == b[1..][..k] && (k == |a[1..]| || a[1..][k] < b[1..][k]) {
        assert a[..k + 1] == [a[0]] + a[1..][..k] && b[..k + 1] == [b[0]] + b[1..][..k];
      }
      if k :| 0 <= k <= |a| && k < |b| && a[..k] == b[..k] && (k == |a| || a[k] < b[k]) {
        assert k > 0;
        assert a[1..][..k - 1] == a[..k][1..] && b[1..][..k - 1] == b[..k][1..];
      }
    } else if b != [] {
      assert a[..0] == b[..0];
      if k :| 0 <= k <= |a| && k < |b| && a[..k] == b[..k] && (k == |a| || a[k] < b[k]) {
        assert k > 0 ==> a[..k][0] == b[..k][0];
      }
    }
  }

  lemma {:induction false} PrecedesIsTotal(a: string, b: string)
    ensures a == b || Precedes(a, b) || Precedes(b, a)
  {
    if a != [] && b != [] && a[0] == b[0] {
      PrecedesIsTotal(a[1..], b[1..]);
      assert a == [a[0]] + a[1..] && b == [b[0]] + b[1..];
    }
  }

  lemma {:induction false} PrecedesIsTransitive(a: string, b: string, c: string)
    requires Precedes(a, b) && Precedes(b, c)
    ensures Precedes(a, c)
  {
    if a != [] && a[0] == b[0] && b[0] == c[0] {
      PrecedesIsTransitive(a[1..], b[1..], c[1..]);
    }
  }

  method LeastPath(s: set<SecretPath>) returns (p: SecretPath)
    requires s != {}
    ensures p in s && forall q :: q in s && q != p ==> Precedes(p, q)
  {
    hide Precedes, ValidPath;
    p :| p in s;
    var rest := s - {p};
    while rest != {}
      invariant rest <= s && p in s && p !in rest
      invariant forall q :: q in s && q !in rest && q != p ==> Precedes(p, q)
    {
      var q: SecretPath :| q in rest;
      PrecedesIsTotal(p, q);
      rest := rest - {q};
      if Precedes(q, p) {
        forall o | o in s && o !in rest && o != p && o != q ensures Precedes(q, o) {
          PrecedesIsTransitive(q, p, o);
        }
        p := q;
      }
    }
  }
}
