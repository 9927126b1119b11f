/** The few Python `str` operations the two scripts rely on, over `seq<char>`. */
module Strings {

  /** `s.startswith(p)` */
  predicate StartsWith(s: string, p: string) {
    |p| <= |s| && s[..|p|] == p
  }

  /** `s.endswith(p)` */
  predicate EndsWith(s: string, p: string) {
    |p| <= |s| && s[|s| - |p|..] == p
  }

  /** `m` occurs in `s` starting at offset `k`. */
  predicate OccursAt(s: string, m: string, k: nat) {
    k + |m| <= |s| && s[k..k + |m|] == m
  }

  /** An occurrence one place further into `s` is an occurrence in its tail. */
  lemma OccursAtTail(s: string, m: string, k: nat)
    requires |s| > 0
    ensures OccursAt(s, m, k + 1) <==> OccursAt(s[1..], m, k)
  {
    if k + 1 + |m| <= |s| {
      assert s[k + 1..k + 1 + |m|] == s[1..][k..k + |m|];
    }
  }

  /** `m in s` */
  predicate Contains(s: string, m: string) {
    exists k :: 0 <= k <= |s| - |m| && OccursAt(s, m, k)
  }

  /** Number of occurrences of the character `c` in `s`. */
  function Count(s: string, c: char): nat {
    multiset(s)[c]
  }

  lemma CountCons(s: string, c: char)
    requires |s| > 0
    ensures Count(s, c) == (if s[0] == c then 1 else 0) + Count(s[1..], c)
  {
    assert s == [s[0]] + s[1..];
  }

  /** A string has at least as many copies of `c` as any prefix of it. */
  lemma CountAtLeastPrefix(s: string, p: string, c: char)
    requires StartsWith(s, p)
    ensures Count(s, c) >= Count(p, c)
  {
    assert s == p + s[|p|..];
  }

  /** `s.replace(m, "")`: every non-overlapping occurrence of `m`, scanned
      left to right, is deleted. An empty `m` leaves `s` unchanged, as in
      Python, where it inserts the empty string between characters. */
  function RemoveAll(s: string, m: string): (r: string)
    ensures |r| <= |s|
    decreases |s|
  {
    if |m| == 0 || |s| < |m| then s
    else if s[..|m|] == m then RemoveAll(s[|m|..], m)
    else [s[0]] + RemoveAll(s[1..], m)
  }

  /** Removing a string that does not occur changes nothing. */
  lemma {:induction false} RemoveAllAbsent(s: string, m: string)
    requires !Contains(s, m)
    ensures RemoveAll(s, m) == s
    decreases |s|
  {
    if |m| == 0 {
      assert OccursAt(s, m, 0);
    } else if |s| >= |m| {
      assert !OccursAt(s, m, 0);
      if Contains(s[1..], m) {
        var k :| 0 <= k <= |s[1..]| - |m| && OccursAt(s[1..], m, k);
        OccursAtTail(s, m, k);
      }
      RemoveAllAbsent(s[1..], m);
      assert s == [s[0]] + s[1..];
    }
  }

  /** A prefix that does not contain the first character of `m` survives
      the removal untouched. */
  lemma {:induction false} RemoveAllKeepsHead(p: string, r: string, m: string)
    requires |m| > 0 && m[0] !in p
    ensures RemoveAll(p + r, m) == p + RemoveAll(r, m)
    decreases |p|
  {
    if |p| > 0 {
      var s := p + r;
      assert s[1..] == p[1..] + r;
      if |s| >= |m| {
        assert s[0] == p[0] && s[0] != m[0];
        assert s[..|m|] != m;
      }
      RemoveAllKeepsHead(p[1..], r, m);
      assert p == [p[0]] + p[1..];
    } else {
      assert p + r == r;
    }
  }

  /** When the only occurrence of `m` in `base + m` is the trailing one,
      removing `m` gives back `base`. */
  lemma {:induction false} RemoveAllSoleTrailing(base: string, m: string)
    requires |m| > 0
    requires forall k :: 0 <= k < |base| ==> !OccursAt(base + m, m, k)
    ensures RemoveAll(base + m, m) == base
    decreases |base|
  {
    var s := base + m;
    if |base| == 0 {
      assert s == m;
      assert s[|m|..] == [];
    } else {
      assert !OccursAt(s, m, 0);
      assert s[..|m|] != m;
      assert s[1..] == base[1..] + m;
      forall k | 0 <= k < |base[1..]|
        ensures !OccursAt(base[1..] + m, m, k)
      {
        OccursAtTail(s, m, k);
      }
      RemoveAllSoleTrailing(base[1..], m);
      assert base == [base[0]] + base[1..];
    }
  }

  /** A prefix in which no occurrence of `m` starts survives the removal
      untouched. */
  lemma {:induction false} RemoveAllSkipsPrefix(x: string, r: string, m: string)
    requires |m| > 0
    requires forall k :: 0 <= k < |x| ==> !OccursAt(x + r, m, k)
    ensures RemoveAll(x + r, m) == x + RemoveAll(r, m)
    decreases |x|
  {
    var s := x + r;
    if |x| == 0 {
      assert s == r;
    } else if |s| < |m| {
      assert RemoveAll(r, m) == r;
    } else {
      assert !OccursAt(s, m, 0);
      assert s[1..] == x[1..] + r;
      assert RemoveAll(s, m) == [s[0]] + RemoveAll(s[1..], m);
      forall k | 0 <= k < |x[1..]|
        ensures !OccursAt(x[1..] + r, m, k)
      {
        OccursAtTail(s, m, k);
      }
      RemoveAllSkipsPrefix(x[1..], r, m);
      assert x == [x[0]] + x[1..];
    }
  }

  /** `replace` deletes every copy, not only the last: with `m` occurring
      only at the two places shown, both copies go. */
  lemma RemoveAllTwoCopies(x: string, y: string, m: string)
    requires |m| > 0
    requires forall k :: 0 <= k < |x| ==> !OccursAt(x + m + y + m, m, k)
    requires forall k :: 0 <= k < |y| ==> !OccursAt(y + m, m, k)
    ensures RemoveAll(x + m + y + m, m) == x + y
  {
    var t := m + (y + m);
    ConcatRegroup(x, m, y);
    RemoveAllSkipsPrefix(x, t, m);
    RemoveAllTail(m, y);
  }

  lemma ConcatRegroup(x: string, m: string, y: string)
    ensures x + m + y + m == x + (m + (y + m))
  {
  }

  /** Both the leading and the trailing copy go from `m + y + m`. */
  lemma RemoveAllTail(m: string, y: string)
    requires |m| > 0
    requires forall k :: 0 <= k < |y| ==> !OccursAt(y + m, m, k)
    ensures RemoveAll(m + (y + m), m) == y
  {
    RemoveAllLeading(m, y + m);
    RemoveAllSoleTrailing(y, m);
  }

  /** A leading copy of `m` is deleted. */
  lemma RemoveAllLeading(m: string, r: string)
    requires |m| > 0
    ensures RemoveAll(m + r, m) == RemoveAll(r, m)
  {
    assert (m + r)[..|m|] == m && (m + r)[|m|..] == r;
  }

  /** Removing a string that lacks `c` keeps every `c`. */
  lemma {:induction false} RemoveAllKeepsCount(s: string, m: string, c: char)
    requires c !in m
    ensures Count(RemoveAll(s, m), c) == Count(s, c)
    decreases |s|
  {
    if |m| == 0 || |s| < |m| {
    } else if s[..|m|] == m {
      RemoveAllKeepsCount(s[|m|..], m, c);
      assert s == s[..|m|] + s[|m|..];
    } else {
      RemoveAllKeepsCount(s[1..], m, c);
      CountCons(s, c);
      CountCons([s[0]] + RemoveAll(s[1..], m), c);
      assert ([s[0]] + RemoveAll(s[1..], m))[1..] == RemoveAll(s[1..], m);
    }
  }

  /** `s.split(d)`: the fields between the separators, empty ones included. */
  function Split(s: string, d: char): (fields: seq<string>)
    ensures |fields| == Count(s, d) + 1
    ensures forall i :: 0 <= i < |fields| ==> d !in fields[i]
    decreases |s|
  {
    if |s| == 0 then [""]
    else
      var rest := Split(s[1..], d);
      CountCons(s, d);
      if s[0] == d then [""] + rest
      else [[s[0]] + rest[0]] + rest[1..]
  }

  /** `d.join(fields)` */
  function Join(fields: seq<string>, d: char): string
    requires |fields| > 0
  {
    if |fields| == 1 then fields[0] else fields[0] + [d] + Join(fields[1..], d)
  }

  lemma JoinAfterEmpty(rest: seq<string>, d: char)
    requires |rest| > 0
    ensures Join([""] + rest, d) == [d] + Join(rest, d)
  {
    assert ([""] + rest)[1..] == rest;
  }

  lemma JoinExtendFirst(c: char, rest: seq<string>, d: char)
    requires |rest| > 0
    ensures Join([[c] + rest[0]] + rest[1..], d) == [c] + Join(rest, d)
  {
    var fields := [[c] + rest[0]] + rest[1..];
    if |rest| > 1 {
      assert fields[1..] == rest[1..];
    }
  }

  /** Splitting loses nothing: joining the fields back gives the string. */
  lemma {:induction false} SplitJoin(s: string, d: char)
    ensures Join(Split(s, d), d) == s
    decreases |s|
  {
    if |s| > 0 {
      var rest := Split(s[1..], d);
      SplitJoin(s[1..], d);
      assert s == [s[0]] + s[1..];
      if s[0] == d {
        JoinAfterEmpty(rest, d);
      } else {
        JoinExtendFirst(s[0], rest, d);
      }
    }
  }

  /** A string without the separator is a single field. */
  lemma {:induction false} SplitNoSep(a: string, d: char)
    requires d !in a
    ensures Split(a, d) == [a]
    decreases |a|
  {
    if |a| > 0 {
      SplitNoSep(a[1..], d);
      assert [a[0]] + a[1..] == a;
    }
  }

  /** A leading field without the separator comes off as the first field. */
  lemma {:induction false} SplitAfterField(a: string, b: string, d: char)
    requires d !in a
    ensures Split(a + [d] + b, d) == [a] + Split(b, d)
    decreases |a|
  {
    var s := a + [d] + b;
    if |a| == 0 {
      assert s == [d] + b;
      assert s[1..] == b;
    } else {
      assert s[1..] == a[1..] + [d] + b;
      SplitAfterField(a[1..], b, d);
      assert [a[0]] + a[1..] == a;
    }
  }

  /** Python's `<=` on `str`: lexicographic by code point. */
  predicate LexLe(a: string, b: string)
    decreases |a|
  {
    |a| == 0 || (|b| > 0 && (a[0] < b[0] || (a[0] == b[0] && LexLe(a[1..], b[1..]))))
  }

  lemma {:induction false} LexLeReflexive(a: string)
    ensures LexLe(a, a)
    decreases |a|
  {
    if |a| > 0 {
      LexLeReflexive(a[1..]);
    }
  }

  lemma {:induction false} LexLeTotal(a: string, b: string)
    ensures LexLe(a, b) || LexLe(b, a)
    decreases |a|
  {
    if |a| > 0 && |b| > 0 && a[0] == b[0] {
      LexLeTotal(a[1..], b[1..]);
    }
  }

  lemma {:induction false} LexLeTransitive(a: string, b: string, c: string)
    requires LexLe(a, b) && LexLe(b, c)
    ensures LexLe(a, c)
    decreases |a|
  {
    if |a| > 0 && a[0] == b[0] && b[0] == c[0] {
      LexLeTransitive(a[1..], b[1..], c[1..]);
    }
  }

  lemma {:induction false} LexLeAntisymmetric(a: string, b: string)
    requires LexLe(a, b) && LexLe(b, a)
    ensures a == b
    decreases |a|
  {
    if |a| > 0 {
      LexLeAntisymmetric(a[1..], b[1..]);
      assert a == [a[0]] + a[1..] && b == [b[0]] + b[1..];
    }
  }
}
