/** Shell-style file-name patterns whose only wildcard is `*`, as `glob`
    applies them to the names in one directory. */
module Glob {
  import opened Strings

  /** `*` matches any run of characters, every other character itself. */
  predicate GlobMatch(p: string, s: string)
    decreases |p| + |s|
  {
    if |p| == 0 then |s| == 0
    else if p[0] == '*' then GlobMatch(p[1..], s) || (|s| > 0 && GlobMatch(p, s[1..]))
    else |s| > 0 && s[0] == p[0] && GlobMatch(p[1..], s[1..])
  }

  lemma {:induction false} StarMatchesAll(s: string)
    ensures GlobMatch("*", s)
    decreases |s|
  {
    if |s| > 0 {
      StarMatchesAll(s[1..]);
    }
  }

  /** Matching is compositional: matches of two patterns concatenate. */
  lemma {:induction false} GlobConcat(p1: string, s1: string, p2: string, s2: string)
    requires GlobMatch(p1, s1) && GlobMatch(p2, s2)
    ensures GlobMatch(p1 + p2, s1 + s2)
    decreases |p1| + |s1|
  {
    if |p1| == 0 {
      assert p1 + p2 == p2 && s1 + s2 == s2;
    } else if p1[0] == '*' {
      assert (p1 + p2)[1..] == p1[1..] + p2;
      if GlobMatch(p1[1..], s1) {
        GlobConcat(p1[1..], s1, p2, s2);
      } else {
        GlobConcat(p1, s1[1..], p2, s2);
        assert (s1 + s2)[1..] == s1[1..] + s2;
      }
    } else {
      assert (p1 + p2)[1..] == p1[1..] + p2;
      assert (s1 + s2)[1..] == s1[1..] + s2;
      GlobConcat(p1[1..], s1[1..], p2, s2);
    }
  }

  /** Conversely, a match of `p1 + p2` splits at some offset `i`. */
  lemma {:induction false} GlobSplit(p1: string, p2: string, s: string) returns (i: nat)
    requires GlobMatch(p1 + p2, s)
    ensures i <= |s| && GlobMatch(p1, s[..i]) && GlobMatch(p2, s[i..])
    decreases |p1| + |s|
  {
    if |p1| == 0 {
      assert p1 + p2 == p2;
      i := 0;
    } else if p1[0] == '*' {
      assert (p1 + p2)[1..] == p1[1..] + p2;
      if GlobMatch(p1[1..] + p2, s) {
        i := GlobSplit(p1[1..], p2, s);
      } else {
        var j := GlobSplit(p1, p2, s[1..]);
        i := j + 1;
        assert s[..i][1..] == s[1..][..j];
        assert s[i..] == s[1..][j..];
      }
    } else {
      assert (p1 + p2)[1..] == p1[1..] + p2;
      var j := GlobSplit(p1[1..], p2, s[1..]);
      i := j + 1;
      assert s[..i][1..] == s[1..][..j];
      assert s[i..] == s[1..][j..];
    }
  }

  /** Every name that `p` matches is also matched by `q`. */
  ghost predicate Covers(q: string, p: string) {
    forall s :: GlobMatch(p, s) ==> GlobMatch(q, s)
  }

  lemma CoversConcat(q1: string, p1: string, q2: string, p2: string)
    requires Covers(q1, p1) && Covers(q2, p2)
    ensures Covers(q1 + q2, p1 + p2)
  {
    forall s | GlobMatch(p1 + p2, s)
      ensures GlobMatch(q1 + q2, s)
    {
      var i := GlobSplit(p1, p2, s);
      GlobConcat(q1, s[..i], q2, s[i..]);
      assert s[..i] + s[i..] == s;
    }
  }

  lemma CoversStar(p: string)
    ensures Covers("*", p)
  {
    forall s | GlobMatch(p, s)
      ensures GlobMatch("*", s)
    {
      StarMatchesAll(s);
    }
  }

  /** A name holds at least as many copies of a literal character as the
      pattern that matches it. */
  lemma {:induction false} GlobKeepsLiterals(p: string, s: string, c: char)
    requires c != '*' && GlobMatch(p, s)
    ensures Count(s, c) >= Count(p, c)
    decreases |p| + |s|
  {
    if |p| == 0 {
    } else if p[0] == '*' {
      CountCons(p, c);
      if GlobMatch(p[1..], s) {
        GlobKeepsLiterals(p[1..], s, c);
      } else {
        GlobKeepsLiterals(p, s[1..], c);
        CountCons(s, c);
      }
    } else {
      GlobKeepsLiterals(p[1..], s[1..], c);
      CountCons(p, c);
      CountCons(s, c);
    }
  }
}
