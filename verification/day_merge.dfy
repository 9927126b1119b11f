/** Merging each day's group of files into one "_full.csv" record: the
    name comes from the group's first file with a part marker dropped, and
    the column is every member's first column, one after the other. */
module DayMerge {
  import opened Strings
  import opened Naming
  import opened DayGroups

  /** One merged day: the name of the file written and its column. */
  datatype DayRecord = DayRecord(name: string, samples: seq<real>)

  /** The part markers, in the order the script tests them. */
  const PartMarkers: seq<string> := ["_part1", "_part 1", "_part1_graph", "_Part1"]

  const FullSuffix: string := "_full.csv"

  /** When `stem` ends with `marker`, every occurrence of `marker` is
      deleted (`replace` is not anchored at the end). */
  function DropMarker(stem: string, marker: string): (r: string)
    ensures |r| <= |stem|
    ensures !EndsWith(stem, marker) ==> r == stem
  {
    if EndsWith(stem, marker) then RemoveAll(stem, marker) else stem
  }

  function DropMarkers(stem: string): string {
    DropMarker(DropMarker(DropMarker(DropMarker(stem, PartMarkers[0]), PartMarkers[1]), PartMarkers[2]), PartMarkers[3])
  }

  /** The name of the merged file for a group whose first file is `first`. */
  function MergeName(first: string): (r: string)
    ensures EndsWith(r, FullSuffix)
  {
    DropMarkers(Stem(first)) + FullSuffix
  }

  /** The members' columns concatenated in group order. */
  function Samples(g: seq<DatedFile>): (xs: seq<real>)
    decreases |g|
  {
    if |g| == 0 then [] else Samples(g[..|g| - 1]) + g[|g| - 1].file.samples
  }

  function MergeDay(g: seq<DatedFile>): (d: DayRecord)
    requires |g| > 0
  {
    DayRecord(MergeName(g[0].file.name), Samples(g))
  }

  /** One record per group, singletons included. */
  function MergeAll(groups: seq<seq<DatedFile>>): (days: seq<DayRecord>)
    requires forall k :: 0 <= k < |groups| ==> |groups[k]| > 0
    ensures |days| == |groups|
    ensures forall k :: 0 <= k < |groups| ==> days[k] == MergeDay(groups[k])
  {
    seq(|groups|, k requires 0 <= k < |groups| => MergeDay(groups[k]))
  }

  /** The columns of all records, day after day. */
  function AllSamples(days: seq<DayRecord>): seq<real>
    decreases |days|
  {
    if |days| == 0 then [] else AllSamples(days[..|days| - 1]) + days[|days| - 1].samples
  }

  lemma {:induction false} SamplesConcat(a: seq<DatedFile>, b: seq<DatedFile>)
    ensures Samples(a + b) == Samples(a) + Samples(b)
    decreases |b|
  {
    if |b| == 0 {
      assert a + b == a;
    } else {
      assert (a + b)[..|a + b| - 1] == a + b[..|b| - 1];
      SamplesConcat(a, b[..|b| - 1]);
    }
  }

  /** Merging drops and duplicates nothing: the records' columns, day after
      day, are the files' columns in group order. */
  lemma {:induction false} MergeKeepsAllSamples(groups: seq<seq<DatedFile>>)
    requires forall k :: 0 <= k < |groups| ==> |groups[k]| > 0
    ensures AllSamples(MergeAll(groups)) == Samples(Flatten(groups))
    decreases |groups|
  {
    if |groups| > 0 {
      var init := groups[..|groups| - 1];
      MergeKeepsAllSamples(init);
      assert MergeAll(groups)[..|groups| - 1] == MergeAll(init);
      SamplesConcat(Flatten(init), groups[|groups| - 1]);
    }
  }

  /** A stem that ends with no marker keeps its name. */
  lemma MergeNameUnmarked(name: string)
    requires forall k :: 0 <= k < |PartMarkers| ==> !EndsWith(Stem(name), PartMarkers[k])
    ensures MergeName(name) == Stem(name) + FullSuffix
  {
  }

  lemma EndsWithConcat(base: string, m: string, p: string)
    requires EndsWith(base + m, p)
    ensures |p| <= |m| ==> EndsWith(m, p)
    ensures |p| > |m| ==> p[|p| - |m|..] == m
  {
    var s := base + m;
    if |p| <= |m| {
      assert s[|s| - |p|..] == m[|m| - |p|..];
    } else {
      assert s[|s| - |p|..][|p| - |m|..] == m;
    }
  }

  /** A name that is a base, one trailing marker and ".csv" merges to the
      base plus "_full.csv", when the marker does not occur earlier and the
      base itself ends with no marker. */
  lemma MergeNameDropsMarker(base: string, k: nat)
    requires k < |PartMarkers|
    requires '.' !in base
    requires forall j :: 0 <= j < |base| ==> !OccursAt(base + PartMarkers[k], PartMarkers[k], j)
    requires forall j :: 0 <= j < |PartMarkers| ==> !EndsWith(base, PartMarkers[j])
    ensures MergeName(base + PartMarkers[k] + ".csv") == base + FullSuffix
  {
    var m := PartMarkers[k];
    StemOfCsv(base + m);
    RemoveAllSoleTrailing(base, m);
    assert DropMarker(base + m, m) == base;
    OtherMarkersAbsent(base, k);
    DropMarkersOne(base + m, base, k);
  }

  /** Every copy of the trailing marker is dropped, not just the last one:
      a name with the marker both inside and at the end loses both. */
  lemma MergeNameDropsEveryCopy(x: string, y: string, k: nat)
    requires k < |PartMarkers|
    requires '.' !in x && '.' !in y
    requires forall j :: 0 <= j < |x| ==> !OccursAt(x + PartMarkers[k] + y + PartMarkers[k], PartMarkers[k], j)
    requires forall j :: 0 <= j < |y| ==> !OccursAt(y + PartMarkers[k], PartMarkers[k], j)
    requires forall j :: 0 <= j < |PartMarkers| ==> !EndsWith(x + y, PartMarkers[j])
    ensures MergeName(x + PartMarkers[k] + y + PartMarkers[k] + ".csv") == x + y + FullSuffix
  {
    var m := PartMarkers[k];
    var stem := x + m + y + m;
    StemOfCsv(stem);
    RemoveAllTwoCopies(x, y, m);
    assert DropMarker(stem, m) == x + y;
    OtherMarkersAbsent(x + m + y, k);
    DropMarkersOne(stem, x + y, k);
  }

  /** The four tests run in sequence on the updated stem, so a marker that
      an earlier removal exposes is dropped as well: a stem ending in
      "_Part1_part1" loses "_part1" at the first test and "_Part1" at the
      last. */
  lemma ExposedMarkerDropped(base: string)
    requires forall j :: 0 <= j < |base + PartMarkers[3]| ==>
      !OccursAt(base + PartMarkers[3] + PartMarkers[0], PartMarkers[0], j)
    requires forall j :: 0 <= j < |base| ==> !OccursAt(base + PartMarkers[3], PartMarkers[3], j)
    requires forall j :: 0 <= j < |PartMarkers| ==> !EndsWith(base, PartMarkers[j])
    ensures DropMarkers(base + PartMarkers[3] + PartMarkers[0]) == base
  {
    var first, last := PartMarkers[0], PartMarkers[3];
    RemoveAllSoleTrailing(base + last, first);
    assert DropMarker(base + last + first, first) == base + last;
    OtherMarkersAbsent(base, 3);
    RemoveAllSoleTrailing(base, last);
    assert DropMarker(base + last, last) == base;
  }

  /** The instance with base "x": "x_Part1_part1" becomes "x". */
  lemma ExposedMarkerExample()
    ensures DropMarkers("x_Part1_part1") == "x"
  {
    assert "x_Part1_part1" == "x" + PartMarkers[3] + PartMarkers[0];
    var s, m := "x_Part1_part1", PartMarkers[0];
    forall j | 0 <= j < 7
      ensures !OccursAt(s, m, j)
    {
      var i := if s[j] != m[0] then 0 else 1;
      assert s[j..j + |m|][i] == s[j + i] != m[i];
    }
    assert "x_Part1"[0..|PartMarkers[3]|][0] == 'x' != PartMarkers[3][0];
    ExposedMarkerDropped("x");
  }

  /** Once `stem` ends with marker `k` alone, and dropping it leaves a stem
      that ends with no marker, the four steps drop exactly that marker. */
  lemma DropMarkersOne(stem: string, base: string, k: nat)
    requires k < |PartMarkers|
    requires forall j :: 0 <= j < |PartMarkers| && j != k ==> !EndsWith(stem, PartMarkers[j])
    requires DropMarker(stem, PartMarkers[k]) == base
    requires forall j :: 0 <= j < |PartMarkers| ==> !EndsWith(base, PartMarkers[j])
    ensures DropMarkers(stem) == base
  {
  }

  /** A stem ending with one marker ends with none of the others. */
  lemma OtherMarkersAbsent(base: string, k: nat)
    requires k < |PartMarkers|
    ensures forall j :: 0 <= j < |PartMarkers| && j != k ==> !EndsWith(base + PartMarkers[k], PartMarkers[j])
  {
    forall j | 0 <= j < |PartMarkers| && j != k
      ensures !EndsWith(base + PartMarkers[k], PartMarkers[j])
    {
      if EndsWith(base + PartMarkers[k], PartMarkers[j]) {
        EndsWithConcat(base, PartMarkers[k], PartMarkers[j]);
        MarkerNotInOther(j, k);
      }
    }
  }

  /** No marker ends with another, nor ends another with its own tail:
      the two differ in the first or second character where they meet. */
  lemma MarkerNotInOther(j: nat, k: nat)
    requires j < |PartMarkers| && k < |PartMarkers| && j != k
    ensures var p, m := PartMarkers[j], PartMarkers[k];
            (|p| <= |m| ==> !EndsWith(m, p)) && (|p| > |m| ==> p[|p| - |m|..] != m)
  {
    var p, m := PartMarkers[j], PartMarkers[k];
    if |p| <= |m| {
      var t := |m| - |p|;
      var i := if m[t] != p[0] then 0 else 1;
      assert m[t + i] != p[i];
      assert m[t..][i] == m[t + i];
    } else {
      var t := |p| - |m|;
      var i := if p[t] != m[0] then 0 else 1;
      assert p[t + i] != m[i];
      assert p[t..][i] == p[t + i];
    }
  }
}
