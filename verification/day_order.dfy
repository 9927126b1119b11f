/** Putting a subject's files in date order before grouping. Format 1 and 2
    names start with a ten-character wand/instance label that spoils plain
    sorting, so the script sorts the names with that label removed and then
    maps each sorted key back to the originals by `endswith`. Format 3
    names are sorted as they are. */
module DayOrder {
  import opened Strings
  import opened Sorting
  import opened Naming

  /** The first ten characters of the stem (fewer if the stem is shorter). */
  function WandInstanceLabel(name: string): string {
    var stem := Stem(name);
    if |stem| <= 10 then stem else stem[..10]
  }

  /** The name with every copy of its wand/instance label removed. */
  function Strip(name: string): string {
    RemoveAll(name, WandInstanceLabel(name))
  }

  function StripAll(files: seq<RawFile>): seq<string> {
    seq(|files|, i requires 0 <= i < |files| => Strip(files[i].name))
  }

  function NameOf(f: RawFile): string {
    f.name
  }

  /** A directory listing never holds two files of the same name. */
  ghost predicate DistinctNames(files: seq<RawFile>) {
    forall i, j :: 0 <= i < j < |files| ==> files[i].name != files[j].name
  }

  /** The originals, in listing order, whose names end with `key`. */
  function EndingWith(files: seq<RawFile>, key: string): seq<RawFile> {
    if |files| == 0 then []
    else (if EndsWith(files[0].name, key) then [files[0]] else []) + EndingWith(files[1..], key)
  }

  /** `EndingWith` keeps every copy of each original that ends with the key,
      and nothing else. */
  lemma {:induction false} EndingWithCount(files: seq<RawFile>, key: string, f: RawFile)
    ensures multiset(EndingWith(files, key))[f] == if EndsWith(f.name, key) then multiset(files)[f] else 0
    ensures f in EndingWith(files, key) <==> f in files && EndsWith(f.name, key)
    decreases |files|
  {
    if |files| > 0 {
      EndingWithCount(files[1..], key, f);
      assert files == [files[0]] + files[1..];
    }
  }

  /** For each key in turn, every original that ends with it. */
  function Reassociate(keys: seq<string>, files: seq<RawFile>): seq<RawFile> {
    if |keys| == 0 then [] else EndingWith(files, keys[0]) + Reassociate(keys[1..], files)
  }

  lemma {:induction false} ReassociateFromFiles(keys: seq<string>, files: seq<RawFile>, f: RawFile)
    ensures f in Reassociate(keys, files) ==> f in files
    decreases |keys|
  {
    if |keys| > 0 {
      ReassociateFromFiles(keys[1..], files, f);
      EndingWithCount(files, keys[0], f);
    }
  }

  /** The Format 1/2 re-sort as the script performs it: the stripped names
      are sorted, and each is mapped back to every original ending with it. */
  function ReorderAsWritten(files: seq<RawFile>): seq<RawFile> {
    Reassociate(SortBy(StripAll(files), Identity), files)
  }

  /** Whatever the re-sort returns is one of the originals. */
  lemma ReorderReturnsOriginals(files: seq<RawFile>, f: RawFile)
    ensures f in ReorderAsWritten(files) ==> f in files
  {
    ReassociateFromFiles(SortBy(StripAll(files), Identity), files, f);
  }

  /** Nothing is lost: every original whose stripped name is a suffix of
      itself is returned at least once. */
  lemma ReorderKeepsSelfSuffixed(files: seq<RawFile>, i: nat)
    requires i < |files| && EndsWith(files[i].name, Strip(files[i].name))
    ensures files[i] in ReorderAsWritten(files)
  {
    var keys := StripAll(files);
    ReassociateCovers(keys, SortBy(keys, Identity), files, i);
  }

  /** Something can also be lost: an original whose name ends with no
      stripped name of the listing, its own included, is not returned.
      This happens when the label recurs inside the name, since every copy
      of it is stripped. */
  lemma ReorderDropsUnsuffixed(files: seq<RawFile>, i: nat)
    requires i < |files|
    requires forall j :: 0 <= j < |files| ==> !EndsWith(files[i].name, Strip(files[j].name))
    ensures files[i] !in ReorderAsWritten(files)
  {
    var keys := StripAll(files);
    var sorted := SortBy(keys, Identity);
    forall t | 0 <= t < |sorted|
      ensures !EndsWith(files[i].name, sorted[t])
    {
      assert sorted[t] in multiset(keys);
      var j :| 0 <= j < |keys| && keys[j] == sorted[t];
    }
    ReassociateNone(sorted, files, files[i]);
  }

  /** A single file that does not end with its own stripped name makes the
      re-sort return nothing at all. */
  lemma DroppedWhenNotSelfSuffixed(f: RawFile)
    requires !EndsWith(f.name, Strip(f.name))
    ensures ReorderAsWritten([f]) == []
  {
    ReorderDropsUnsuffixed([f], 0);
    assert |Reassociate(SortBy(StripAll([f]), Identity), [f])| == 0 by {
      var r := Reassociate(SortBy(StripAll([f]), Identity), [f]);
      if |r| > 0 {
        assert r[0] in r;
        ReassociateFromFiles(SortBy(StripAll([f]), Identity), [f], r[0]);
      }
    }
  }

  lemma {:induction false} ReassociateNone(keys: seq<string>, files: seq<RawFile>, v: RawFile)
    requires forall t :: 0 <= t < |keys| ==> !EndsWith(v.name, keys[t])
    ensures v !in Reassociate(keys, files)
    decreases |keys|
  {
    if |keys| > 0 {
      ReassociateNone(keys[1..], files, v);
      EndingWithCount(files, keys[0], v);
    }
  }

  /** The order in which a subject's files are grouped. */
  function OrderFiles(fmt: Format, files: seq<RawFile>): seq<RawFile> {
    if fmt == Format3 then SortBy(files, NameOf) else ReorderAsWritten(files)
  }

  /** How many of `keys` the name ends with. */
  function EndCount(keys: seq<string>, name: string): nat {
    if |keys| == 0 then 0
    else (if EndsWith(name, keys[0]) then 1 else 0) + EndCount(keys[1..], name)
  }

  lemma {:induction false} EndCountConcat(a: seq<string>, b: seq<string>, name: string)
    ensures EndCount(a + b, name) == EndCount(a, name) + EndCount(b, name)
    decreases |a|
  {
    if |a| == 0 {
      assert a + b == b;
    } else {
      assert (a + b)[1..] == a[1..] + b;
      EndCountConcat(a[1..], b, name);
    }
  }

  lemma {:induction false} EndCountPermutation(a: seq<string>, b: seq<string>, name: string)
    requires multiset(a) == multiset(b)
    ensures EndCount(a, name) == EndCount(b, name)
    decreases |a|
  {
    if |a| == 0 {
      assert |multiset(b)| == 0;
    } else {
      assert a[0] in multiset(b);
      var k :| 0 <= k < |b| && b[k] == a[0];
      var rest := b[..k] + b[k + 1..];
      EndCountRemove(b, k, name);
      assert a == [a[0]] + a[1..];
      assert multiset(a[1..]) == multiset(rest);
      EndCountPermutation(a[1..], rest, name);
    }
  }

  /** Taking out the key at `k` takes out its count and its copy. */
  lemma EndCountRemove(b: seq<string>, k: nat, name: string)
    requires k < |b|
    ensures EndCount(b, name) == (if EndsWith(name, b[k]) then 1 else 0) + EndCount(b[..k] + b[k + 1..], name)
    ensures multiset(b[..k] + b[k + 1..]) == multiset(b) - multiset{b[k]}
  {
    assert b == b[..k] + [b[k]] + b[k + 1..];
    EndCountConcat(b[..k], b[k + 1..], name);
    EndCountConcat(b[..k] + [b[k]], b[k + 1..], name);
    EndCountConcat(b[..k], [b[k]], name);
  }

  lemma {:induction false} EndCountAtLeastOne(keys: seq<string>, name: string, i: nat)
    requires i < |keys| && EndsWith(name, keys[i])
    ensures EndCount(keys, name) >= 1
    decreases i
  {
    if i > 0 {
      EndCountAtLeastOne(keys[1..], name, i - 1);
    }
  }

  lemma {:induction false} EndCountAtLeastTwo(keys: seq<string>, name: string, i: nat, j: nat)
    requires i < j < |keys| && EndsWith(name, keys[i]) && EndsWith(name, keys[j])
    ensures EndCount(keys, name) >= 2
    decreases i
  {
    if i > 0 {
      EndCountAtLeastTwo(keys[1..], name, i - 1, j - 1);
    } else {
      EndCountAtLeastOne(keys[1..], name, j - 1);
    }
  }

  lemma {:induction false} EndCountExactlyOne(keys: seq<string>, name: string, i: nat)
    requires i < |keys| && EndsWith(name, keys[i])
    requires forall j :: 0 <= j < |keys| && j != i ==> !EndsWith(name, keys[j])
    ensures EndCount(keys, name) == 1
    decreases |keys|
  {
    if i > 0 {
      EndCountExactlyOne(keys[1..], name, i - 1);
    } else {
      EndCountNone(keys[1..], name);
    }
  }

  lemma {:induction false} EndCountNone(keys: seq<string>, name: string)
    requires forall j :: 0 <= j < |keys| ==> !EndsWith(name, keys[j])
    ensures EndCount(keys, name) == 0
    decreases |keys|
  {
    if |keys| > 0 {
      EndCountNone(keys[1..], name);
    }
  }

  /** Each original is emitted once for every key its name ends with (for
      every copy of it in the listing). */
  lemma {:induction false} ReassociateCount(keys: seq<string>, files: seq<RawFile>, v: RawFile)
    ensures v in files ==> multiset(Reassociate(keys, files))[v] >= EndCount(keys, v.name)
    ensures multiset(files)[v] == 1 ==> multiset(Reassociate(keys, files))[v] == EndCount(keys, v.name)
    decreases |keys|
  {
    if |keys| > 0 {
      ReassociateCount(keys[1..], files, v);
      var head := EndingWith(files, keys[0]);
      var rest := Reassociate(keys[1..], files);
      assert Reassociate(keys, files) == head + rest;
      EndingWithCount(files, keys[0], v);
      assert multiset(head + rest)[v] == multiset(head)[v] + multiset(rest)[v];
    }
  }

  lemma {:induction false} DistinctOnce(files: seq<RawFile>, j: nat)
    requires DistinctNames(files) && j < |files|
    ensures multiset(files)[files[j]] == 1
    decreases |files|
  {
    assert files == [files[0]] + files[1..];
    if j == 0 {
      assert files[0] !in files[1..];
    } else {
      DistinctOnce(files[1..], j - 1);
    }
  }

  /** A name made of a ten-character label without '.', followed by a rest
      in which the label does not recur, strips to exactly that rest. */
  lemma StripDropsWandInstance(lead: string, rest: string)
    requires |lead| == 10 && '.' !in lead
    requires !Contains(rest, lead)
    ensures Strip(lead + rest) == rest
  {
    RemoveAllKeepsHead(lead, rest, ".csv");
    assert Stem(lead + rest)[..10] == lead;
    assert (lead + rest)[..|lead|] == lead;
    assert (lead + rest)[|lead|..] == rest;
    RemoveAllAbsent(rest, lead);
  }

  /** When one original's stripped name is a suffix of a different original
      `files[j]`, the re-sort emits `files[j]` at least twice, so its result
      is not a permutation of the listing. */
  lemma SuffixCollisionDuplicates(files: seq<RawFile>, i: nat, j: nat)
    requires DistinctNames(files)
    requires i < |files| && j < |files| && i != j
    requires EndsWith(files[j].name, Strip(files[j].name))
    requires EndsWith(files[j].name, Strip(files[i].name))
    ensures multiset(ReorderAsWritten(files))[files[j]] >= 2
    ensures multiset(ReorderAsWritten(files)) != multiset(files)
  {
    var keys := StripAll(files);
    var sorted := SortBy(keys, Identity);
    if i < j {
      EndCountAtLeastTwo(keys, files[j].name, i, j);
    } else {
      EndCountAtLeastTwo(keys, files[j].name, j, i);
    }
    EndCountPermutation(keys, sorted, files[j].name);
    ReassociateCount(sorted, files, files[j]);
    DistinctOnce(files, j);
  }

  /** Without such collisions the re-sort is a permutation of the listing,
      ordered by stripped name. */
  lemma ReorderWithoutCollision(files: seq<RawFile>)
    requires DistinctNames(files)
    requires forall i :: 0 <= i < |files| ==> EndsWith(files[i].name, Strip(files[i].name))
    requires forall i, j :: 0 <= i < |files| && 0 <= j < |files| && i != j ==>
               !EndsWith(files[j].name, Strip(files[i].name))
    ensures multiset(ReorderAsWritten(files)) == multiset(files)
    ensures forall i, j :: 0 <= i < j < |ReorderAsWritten(files)| ==>
              LexLe(Strip(ReorderAsWritten(files)[i].name), Strip(ReorderAsWritten(files)[j].name))
  {
    var keys := StripAll(files);
    assert forall i :: 0 <= i < |files| ==> keys[i] == Strip(files[i].name);
    assert OwnKeysOnly(keys, files);
    var sorted := SortBy(keys, Identity);
    assert ReorderAsWritten(files) == Reassociate(sorted, files);
    ReassociatePermutation(keys, sorted, files);
    ReassociateInOrder(keys, sorted, files);
    var r := Reassociate(sorted, files);
    forall i, j | 0 <= i < j < |r|
      ensures LexLe(Strip(r[i].name), Strip(r[j].name))
    {
      assert Strip(r[i].name) == keys[Owner(keys, sorted, i)] == sorted[i];
      assert Strip(r[j].name) == keys[Owner(keys, sorted, j)] == sorted[j];
      assert LexLe(Identity(sorted[i]), Identity(sorted[j]));
    }
  }

  function StripKey(f: RawFile): string {
    Strip(f.name)
  }

  /** Every file ends with its own stripped name and with no other file's:
      the re-sort then has nothing to re-associate wrongly. */
  ghost predicate NoSuffixCollision(files: seq<RawFile>) {
    (forall f :: f in files ==> EndsWith(f.name, Strip(f.name))) &&
    (forall f, g :: f in files && g in files && f != g ==> !EndsWith(g.name, Strip(f.name)))
  }

  /** The same condition, position by position, as the re-sort lemmas use it. */
  lemma NoSuffixCollisionAt(files: seq<RawFile>)
    requires DistinctNames(files) && NoSuffixCollision(files)
    ensures forall i :: 0 <= i < |files| ==> EndsWith(files[i].name, Strip(files[i].name))
    ensures forall i, j :: 0 <= i < |files| && 0 <= j < |files| && i != j ==>
              !EndsWith(files[j].name, Strip(files[i].name))
  {
    forall i, j | 0 <= i < |files| && 0 <= j < |files| && i != j
      ensures !EndsWith(files[j].name, Strip(files[i].name))
    {
      assert files[i].name != files[j].name by { if i > j { assert files[j].name != files[i].name; } }
      assert files[i] in files && files[j] in files;
    }
  }

  /** Two listings of the same files, in any order, are put in the same
      order: by name for Format 3, and by stripped name for Formats 1 and
      2 when no file ends with another file's stripped name. */
  lemma OrderFilesIgnoresListingOrder(fmt: Format, a: seq<RawFile>, b: seq<RawFile>)
    requires DistinctNames(a) && DistinctNames(b) && multiset(a) == multiset(b)
    requires fmt != Format3 ==> NoSuffixCollision(a)
    ensures OrderFiles(fmt, a) == OrderFiles(fmt, b)
  {
    forall f ensures f in a <==> f in b {
      assert f in a <==> f in multiset(a);
      assert f in b <==> f in multiset(b);
    }
    if fmt == Format3 {
      var ra := SortBy(a, NameOf);
      assert KeyInjective(ra, NameOf) by {
        forall x, y | x in ra && y in ra && NameOf(x) == NameOf(y) ensures x == y {
          assert x in multiset(ra) && y in multiset(ra);
          SameNameSameFile(a, x, y);
        }
      }
      SortedUniqueBy(ra, SortBy(b, NameOf), NameOf);
    } else {
      assert NoSuffixCollision(b);
      NoSuffixCollisionAt(a);
      NoSuffixCollisionAt(b);
      ReorderWithoutCollision(a);
      ReorderWithoutCollision(b);
      var ra := ReorderAsWritten(a);
      var rb := ReorderAsWritten(b);
      assert SortedBy(ra, StripKey) && SortedBy(rb, StripKey);
      assert KeyInjective(ra, StripKey) by {
        forall x, y | x in ra && y in ra && StripKey(x) == StripKey(y) ensures x == y {
          assert x in multiset(ra) && y in multiset(ra);
          assert x in a && y in a;
        }
      }
      SortedUniqueBy(ra, rb, StripKey);
    }
  }

  /** Keeping some of the files of a listing keeps the names distinct. */
  lemma DistinctNamesWithin(sub: seq<RawFile>, files: seq<RawFile>)
    requires DistinctNames(files)
    requires forall f :: multiset(sub)[f] <= multiset(files)[f]
    ensures DistinctNames(sub)
  {
    forall i, j | 0 <= i < j < |sub| ensures sub[i].name != sub[j].name {
      if sub[i].name == sub[j].name {
        assert sub[i] in multiset(sub) && sub[j] in multiset(sub);
        assert sub[i] in multiset(files) && sub[j] in multiset(files);
        SameNameSameFile(files, sub[i], sub[j]);
        TwoCopies(sub, i, j);
        var k :| 0 <= k < |files| && files[k] == sub[i];
        DistinctOnce(files, k);
        assert false;
      }
    }
  }

  /** An element at two positions is counted at least twice. */
  lemma TwoCopies<T>(s: seq<T>, i: nat, j: nat)
    requires i < j < |s| && s[i] == s[j]
    ensures multiset(s)[s[i]] >= 2
  {
    assert s == s[..j] + s[j..];
    assert s[..j][i] == s[i];
    assert s[j..][0] == s[i];
  }

  /** In a listing with distinct names a name identifies the file. */
  lemma SameNameSameFile(files: seq<RawFile>, x: RawFile, y: RawFile)
    requires DistinctNames(files) && x in files && y in files && x.name == y.name
    ensures x == y
  {
    var i :| 0 <= i < |files| && files[i] == x;
    var j :| 0 <= j < |files| && files[j] == y;
    if i != j {
      assert false;
    }
  }

  /** Each original ends with its own key and with no other original's. */
  ghost predicate OwnKeysOnly(keys: seq<string>, files: seq<RawFile>) {
    |keys| == |files| &&
    (forall i :: 0 <= i < |files| ==> EndsWith(files[i].name, keys[i])) &&
    (forall i, j :: 0 <= i < |files| && 0 <= j < |files| && i != j ==> !EndsWith(files[j].name, keys[i]))
  }

  lemma ReassociateCovers(keys: seq<string>, sorted: seq<string>, files: seq<RawFile>, i: nat)
    requires multiset(sorted) == multiset(keys)
    requires i < |files| && i < |keys| && EndsWith(files[i].name, keys[i])
    ensures files[i] in Reassociate(sorted, files)
  {
    EndCountAtLeastOne(keys, files[i].name, i);
    EndCountPermutation(keys, sorted, files[i].name);
    ReassociateCount(sorted, files, files[i]);
    assert multiset(Reassociate(sorted, files))[files[i]] > 0;
  }

  lemma ReassociatePermutation(keys: seq<string>, sorted: seq<string>, files: seq<RawFile>)
    requires DistinctNames(files) && OwnKeysOnly(keys, files)
    requires multiset(sorted) == multiset(keys)
    ensures multiset(Reassociate(sorted, files)) == multiset(files)
  {
    var r := Reassociate(sorted, files);
    forall v
      ensures multiset(r)[v] == multiset(files)[v]
    {
      ReassociateCount(sorted, files, v);
      EndCountPermutation(keys, sorted, v.name);
      if v in files {
        var j :| 0 <= j < |files| && files[j] == v;
        EndCountExactlyOne(keys, v.name, j);
        DistinctOnce(files, j);
      } else {
        ReassociateFromFiles(sorted, files, v);
      }
    }
    assert multiset(r) == multiset(files);
  }

  /** The `t`-th output is the original that owns the `t`-th sorted key. */
  lemma ReassociateInOrder(keys: seq<string>, sorted: seq<string>, files: seq<RawFile>)
    requires DistinctNames(files) && OwnKeysOnly(keys, files)
    requires multiset(sorted) == multiset(keys)
    ensures |Reassociate(sorted, files)| == |sorted|
    ensures forall t :: 0 <= t < |sorted| ==>
              keys[Owner(keys, sorted, t)] == sorted[t] &&
              Reassociate(sorted, files)[t] == files[Owner(keys, sorted, t)]
  {
    forall t | 0 <= t < |sorted|
      ensures EndingWith(files, sorted[t]) == [files[Owner(keys, sorted, t)]]
    {
      EndingWithOwner(keys, files, Owner(keys, sorted, t));
    }
    ReassociateSingletons(sorted, files);
  }

  /** An index of `keys` holding the `t`-th element of its permutation `sorted`. */
  ghost function Owner(keys: seq<string>, sorted: seq<string>, t: nat): (i: nat)
    requires multiset(sorted) == multiset(keys) && t < |sorted|
    ensures i < |keys| && keys[i] == sorted[t]
  {
    assert sorted[t] in multiset(keys);
    var i :| 0 <= i < |keys| && keys[i] == sorted[t];
    i
  }

  lemma EndingWithOwner(keys: seq<string>, files: seq<RawFile>, i: nat)
    requires DistinctNames(files) && OwnKeysOnly(keys, files) && i < |files|
    ensures EndingWith(files, keys[i]) == [files[i]]
  {
    var e := EndingWith(files, keys[i]);
    forall f
      ensures multiset(e)[f] == multiset{files[i]}[f]
    {
      EndingWithCount(files, keys[i], f);
      if f == files[i] {
        DistinctOnce(files, i);
      } else if f in files {
        var j :| 0 <= j < |files| && files[j] == f;
        assert j != i;
      }
    }
    assert multiset(e) == multiset{files[i]};
    assert |e| == 1;
    assert e[0] in multiset(e);
  }

  lemma {:induction false} ReassociateSingletons(keys: seq<string>, files: seq<RawFile>)
    requires forall t :: 0 <= t < |keys| ==> |EndingWith(files, keys[t])| == 1
    ensures |Reassociate(keys, files)| == |keys|
    ensures forall t :: 0 <= t < |keys| ==> Reassociate(keys, files)[t] == EndingWith(files, keys[t])[0]
    decreases |keys|
  {
    if |keys| > 0 {
      ReassociateSingletons(keys[1..], files);
      var r := Reassociate(keys, files);
      forall t | 0 <= t < |keys|
        ensures r[t] == EndingWith(files, keys[t])[0]
      {
        if t > 0 {
          assert r[t] == Reassociate(keys[1..], files)[t - 1];
        }
      }
    }
  }
}
