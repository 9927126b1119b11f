/** Python's `list.sort()` on strings, and on records by one string key. */
module Sorting {
  import opened Strings

  function Identity(s: string): string {
    s
  }

  ghost predicate SortedBy<T>(s: seq<T>, key: T -> string) {
    forall i, j :: 0 <= i < j < |s| ==> LexLe(key(s[i]), key(s[j]))
  }

  /** Places `x` before the first element whose key is not below its own. */
  function InsertBy<T(==)>(x: T, s: seq<T>, key: T -> string): (r: seq<T>)
    requires SortedBy(s, key)
    ensures SortedBy(r, key)
    ensures multiset(r) == multiset(s) + multiset{x}
  {
    if |s| == 0 then [x]
    else if LexLe(key(x), key(s[0])) then
      assert forall j :: 0 < j < |s| ==> LexLe(key(x), key(s[j])) by {
        forall j | 0 < j < |s| {
          LexLeTransitive(key(x), key(s[0]), key(s[j]));
        }
      }
      [x] + s
    else
      var t := InsertBy(x, s[1..], key);
      assert s == [s[0]] + s[1..];
      LexLeTotal(key(x), key(s[0]));
      HeadBelowInsert(x, s, t, key);
      [s[0]] + t
  }

  /** The head of a sorted list stays below everything `InsertBy` builds
      from its tail and an element above it. */
  lemma HeadBelowInsert<T>(x: T, s: seq<T>, t: seq<T>, key: T -> string)
    requires |s| > 0 && SortedBy(s, key)
    requires LexLe(key(s[0]), key(x))
    requires multiset(t) == multiset(s[1..]) + multiset{x}
    ensures forall j :: 0 <= j < |t| ==> LexLe(key(s[0]), key(t[j]))
  {
    forall j | 0 <= j < |t|
      ensures LexLe(key(s[0]), key(t[j]))
    {
      assert t[j] in multiset(t);
      if t[j] != x {
        assert t[j] in multiset(s[1..]);
        var k :| 0 <= k < |s[1..]| && s[1..][k] == t[j];
        assert s[k + 1] == t[j];
      }
    }
  }

  /** An insertion sort: the list it returns is sorted by key and holds
      exactly the elements it was given. */
  function SortBy<T(==)>(s: seq<T>, key: T -> string): (r: seq<T>)
    ensures SortedBy(r, key)
    ensures multiset(r) == multiset(s)
  {
    if |s| == 0 then []
    else
      assert s == [s[0]] + s[1..];
      InsertBy(s[0], SortBy(s[1..], key), key)
  }

  /** No two different elements of `s` share a key. */
  ghost predicate KeyInjective<T>(s: seq<T>, key: T -> string) {
    forall x, y :: x in s && y in s && key(x) == key(y) ==> x == y
  }

  /** Two sorted lists holding the same elements, no two of them with the
      same key, start with the same element. */
  lemma SortedHeadsAgree<T>(a: seq<T>, b: seq<T>, key: T -> string)
    requires |a| > 0 && SortedBy(a, key) && SortedBy(b, key)
    requires multiset(a) == multiset(b) && KeyInjective(a, key)
    ensures |b| > 0 && a[0] == b[0]
  {
    assert a[0] in multiset(b);
    assert b[0] in multiset(a);
    var i :| 0 <= i < |a| && a[i] == b[0];
    var j :| 0 <= j < |b| && b[j] == a[0];
    assert LexLe(key(a[0]), key(a[i])) by { if i == 0 { LexLeReflexive(key(a[0])); } }
    assert LexLe(key(b[0]), key(b[j])) by { if j == 0 { LexLeReflexive(key(b[0])); } }
    LexLeAntisymmetric(key(a[0]), key(b[0]));
  }

  lemma TailMultiset<T>(a: seq<T>)
    requires |a| > 0
    ensures multiset(a[1..]) == multiset(a) - multiset{a[0]}
  {
    assert a == [a[0]] + a[1..];
  }

  /** A list whose keys are all different has only one sorted arrangement:
      any sorted permutation of it is the one `SortBy` returns, whatever
      sorting algorithm produced it. */
  lemma {:induction false} SortedUniqueBy<T>(a: seq<T>, b: seq<T>, key: T -> string)
    requires SortedBy(a, key) && SortedBy(b, key)
    requires multiset(a) == multiset(b) && KeyInjective(a, key)
    ensures a == b
    decreases |a|
  {
    if |a| == 0 {
      assert |multiset(b)| == 0;
    } else {
      SortedHeadsAgree(a, b, key);
      TailMultiset(a);
      TailMultiset(b);
      assert KeyInjective(a[1..], key) by {
        forall x | x in a[1..] ensures x in a { }
      }
      SortedUniqueBy(a[1..], b[1..], key);
    }
  }

  /** Strings have only one sorted arrangement, so Python's Timsort and
      this insertion sort agree on every list of strings. */
  lemma SortedPermutationUnique(a: seq<string>, b: seq<string>)
    requires SortedBy(a, Identity) && SortedBy(b, Identity)
    requires multiset(a) == multiset(b)
    ensures a == b
  {
    SortedUniqueBy(a, b, Identity);
  }
}
