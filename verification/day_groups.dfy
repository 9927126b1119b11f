/** Grouping a subject's ordered files into days. The script counts the
    distinct date tokens, allocates that many empty lists, and walks the
    ordered files once, moving to the next list whenever a file's date
    differs from the first file of the current list. */
module DayGroups {
  import opened Results
  import opened Naming

  /** A file together with the date token read from its name. */
  datatype DatedFile = DatedFile(file: RawFile, date: string)

  datatype GroupError =
    | MissingDateField(name: string)  // `split('_')[k]` raised IndexError
    | GroupIndexOverrun               // `list_oflists[i]` raised IndexError
    | EmptyDayList                    // no file left to group: the run aborts

  /** Attaches each file's date token; the first file without one aborts the
      run, as the uncaught IndexError does. */
  function DateFiles(files: seq<RawFile>, fmt: Format): (r: Result<seq<DatedFile>, GroupError>)
    ensures r.Success? <==> forall i :: 0 <= i < |files| ==> DateToken(files[i].name, fmt).Some?
    ensures r.Success? ==> |r.value| == |files|
    ensures r.Success? ==> forall i :: 0 <= i < |files| ==>
              r.value[i].file == files[i] && DateToken(files[i].name, fmt) == Some(r.value[i].date)
    ensures r.Failure? ==> exists i :: FirstMissing(files, fmt, i) && r.error == MissingDateField(files[i].name)
    decreases |files|
  {
    if |files| == 0 then Success([])
    else match DateToken(files[0].name, fmt)
      case None => Failure(MissingDateField(files[0].name))
      case Some(d) =>
        var rest := DateFiles(files[1..], fmt);
        if rest.Failure? then
          var i :| FirstMissing(files[1..], fmt, i) && rest.error == MissingDateField(files[1..][i].name);
          FirstMissingShift(files, fmt, i);
          Failure(rest.error)
        else
          AllDatedShift(files, fmt);
          Success([DatedFile(files[0], d)] + rest.value)
  }

  lemma FirstMissingShift(files: seq<RawFile>, fmt: Format, i: int)
    requires |files| > 0 && DateToken(files[0].name, fmt).Some?
    requires FirstMissing(files[1..], fmt, i)
    ensures FirstMissing(files, fmt, i + 1) && files[1..][i] == files[i + 1]
  {
    forall j | 0 < j < i + 1 ensures DateToken(files[j].name, fmt).Some? {
      assert files[j] == files[1..][j - 1];
    }
  }

  lemma AllDatedShift(files: seq<RawFile>, fmt: Format)
    requires |files| > 0 && DateToken(files[0].name, fmt).Some?
    requires forall i :: 0 <= i < |files| - 1 ==> DateToken(files[1..][i].name, fmt).Some?
    ensures forall i :: 0 <= i < |files| ==> DateToken(files[i].name, fmt).Some?
  {
    forall i | 0 < i < |files| ensures DateToken(files[i].name, fmt).Some? {
      assert files[i] == files[1..][i - 1];
    }
  }

  /** `files[i]` is the first file without a date field. */
  predicate FirstMissing(files: seq<RawFile>, fmt: Format, i: int) {
    0 <= i < |files| && DateToken(files[i].name, fmt).None? &&
    forall j :: 0 <= j < i ==> DateToken(files[j].name, fmt).Some?
  }

  ghost predicate HasDate(fs: seq<DatedFile>, d: string) {
    exists i :: 0 <= i < |fs| && fs[i].date == d
  }

  /** Every file that shares a date with an earlier one sits right after
      files of that same date: no date recurs after a different one. */
  ghost predicate Contiguous(fs: seq<DatedFile>) {
    forall a, b, c :: 0 <= a < b < c < |fs| && fs[a].date == fs[c].date ==> fs[b].date == fs[a].date
  }

  /** All files in the group carry the first file's date. */
  ghost predicate Uniform(g: seq<DatedFile>) {
    forall x :: 0 <= x < |g| ==> g[x].date == g[0].date
  }

  function Flatten(gs: seq<seq<DatedFile>>): seq<DatedFile>
    decreases |gs|
  {
    if |gs| == 0 then [] else Flatten(gs[..|gs| - 1]) + gs[|gs| - 1]
  }

  lemma HasDateSnoc(fs: seq<DatedFile>)
    requires |fs| > 0
    ensures forall d :: HasDate(fs, d) <==> HasDate(fs[..|fs| - 1], d) || fs[|fs| - 1].date == d
  {
    var init := fs[..|fs| - 1];
    forall d | HasDate(fs, d) && fs[|fs| - 1].date != d
      ensures HasDate(init, d)
    {
      var i :| 0 <= i < |fs| && fs[i].date == d;
      assert init[i].date == d;
    }
    forall d | HasDate(init, d)
      ensures HasDate(fs, d)
    {
      var i :| 0 <= i < |init| && init[i].date == d;
      assert fs[i].date == d;
    }
  }

  /** The distinct dates in order of first appearance; their number is the
      `ngroups` of a pandas `groupby` on the dates. */
  function DistinctDates(fs: seq<DatedFile>): (ds: seq<string>)
    ensures forall d :: d in ds <==> HasDate(fs, d)
    ensures forall a, b :: 0 <= a < b < |ds| ==> ds[a] != ds[b]
    decreases |fs|
  {
    if |fs| == 0 then []
    else
      var ds := DistinctDates(fs[..|fs| - 1]);
      HasDateSnoc(fs);
      if fs[|fs| - 1].date in ds then ds else ds + [fs[|fs| - 1].date]
  }

  /** The distinct dates come in order of first appearance: every file
      carrying a later date is preceded by a file carrying each earlier
      one. */
  lemma {:induction false} DistinctDatesInOrder(fs: seq<DatedFile>, a: nat, b: nat, j: nat)
    requires a < b < |DistinctDates(fs)| && j < |fs| && fs[j].date == DistinctDates(fs)[b]
    ensures exists i :: 0 <= i < j && fs[i].date == DistinctDates(fs)[a]
    decreases |fs|
  {
    var init := fs[..|fs| - 1];
    var f := fs[|fs| - 1];
    assert fs == init + [f];
    var ds := DistinctDates(init);
    DistinctDatesSnoc(init, f);
    if f.date in ds {
      if j < |init| {
        assert init[j] == fs[j];
        DistinctDatesInOrder(init, a, b, j);
        var i :| 0 <= i < j && init[i].date == ds[a];
        assert fs[i] == init[i];
      } else {
        assert HasDate(init, ds[b]);
        var j0 :| 0 <= j0 < |init| && init[j0].date == ds[b];
        DistinctDatesInOrder(init, a, b, j0);
        var i :| 0 <= i < j0 && init[i].date == ds[a];
        assert fs[i] == init[i];
      }
    } else if b < |ds| {
      if j == |init| {
        assert false;
      }
      assert init[j] == fs[j];
      DistinctDatesInOrder(init, a, b, j);
      var i :| 0 <= i < j && init[i].date == ds[a];
      assert fs[i] == init[i];
    } else {
      if j < |init| {
        assert init[j] == fs[j];
        assert HasDate(init, fs[j].date);
        assert false;
      }
      EarlierDateSeen(init, a);
      var i :| 0 <= i < |init| && init[i].date == ds[a];
      assert fs[i] == init[i];
    }
  }

  /** Every distinct date is carried by some file. */
  lemma EarlierDateSeen(fs: seq<DatedFile>, a: nat)
    requires a < |DistinctDates(fs)|
    ensures exists i :: 0 <= i < |fs| && fs[i].date == DistinctDates(fs)[a]
  {
    assert HasDate(fs, DistinctDates(fs)[a]);
  }

  /** Adds one more file to a list of runs: it joins the last run when its
      date matches that run's, and starts a new run otherwise. */
  function Extend(runs: seq<seq<DatedFile>>, f: DatedFile): seq<seq<DatedFile>> {
    if |runs| > 0 && |runs[|runs| - 1]| > 0 && runs[|runs| - 1][0].date == f.date
    then runs[..|runs| - 1] + [runs[|runs| - 1] + [f]]
    else runs + [[f]]
  }

  /** Non-empty groups, each of one date, no two neighbours of the same date. */
  ghost predicate MaximalRuns(runs: seq<seq<DatedFile>>) {
    (forall j :: 0 <= j < |runs| ==> |runs[j]| > 0 && Uniform(runs[j])) &&
    (forall j :: 0 < j < |runs| ==> runs[j - 1][0].date != runs[j][0].date)
  }

  /** The runs of consecutive files with equal dates, built file by file. */
  function GroupRuns(fs: seq<DatedFile>): seq<seq<DatedFile>>
    decreases |fs|
  {
    if |fs| == 0 then [] else Extend(GroupRuns(fs[..|fs| - 1]), fs[|fs| - 1])
  }

  lemma ExtendKeepsRuns(runs: seq<seq<DatedFile>>, f: DatedFile)
    requires MaximalRuns(runs)
    ensures MaximalRuns(Extend(runs, f))
    ensures Flatten(Extend(runs, f)) == Flatten(runs) + [f]
    ensures |Extend(runs, f)| > 0 && Extend(runs, f)[|Extend(runs, f)| - 1][0].date == f.date
  {
    if |runs| > 0 && runs[|runs| - 1][0].date == f.date {
      ExtendJoins(runs, f);
    } else {
      ExtendStarts(runs, f);
    }
  }

  /** A file of another date than the last run's starts a run of its own. */
  lemma ExtendStarts(runs: seq<seq<DatedFile>>, f: DatedFile)
    requires MaximalRuns(runs) && (|runs| == 0 || runs[|runs| - 1][0].date != f.date)
    ensures MaximalRuns(Extend(runs, f))
    ensures Flatten(Extend(runs, f)) == Flatten(runs) + [f]
    ensures |Extend(runs, f)| > 0 && Extend(runs, f)[|Extend(runs, f)| - 1][0].date == f.date
  {
    var r := Extend(runs, f);
    assert r == runs + [[f]];
    assert r[..|r| - 1] == runs;
    assert forall j :: 0 <= j < |runs| ==> r[j] == runs[j];
    assert r[|runs|] == [f];
  }

  /** A file of the last run's date joins that run. */
  lemma ExtendJoins(runs: seq<seq<DatedFile>>, f: DatedFile)
    requires MaximalRuns(runs) && |runs| > 0 && runs[|runs| - 1][0].date == f.date
    ensures MaximalRuns(Extend(runs, f))
    ensures Flatten(Extend(runs, f)) == Flatten(runs) + [f]
    ensures |Extend(runs, f)| > 0 && Extend(runs, f)[|Extend(runs, f)| - 1][0].date == f.date
  {
    var r := Extend(runs, f);
    var init := runs[..|runs| - 1];
    var last := runs[|runs| - 1];
    assert r == init + [last + [f]];
    ExtendJoinsFlatten(init, last, f);
    assert Uniform(last + [f]) by {
      assert forall x :: 0 <= x < |last| ==> (last + [f])[x] == last[x];
    }
    assert forall j :: 0 <= j < |init| ==> r[j] == runs[j];
  }

  lemma ExtendJoinsFlatten(init: seq<seq<DatedFile>>, last: seq<DatedFile>, f: DatedFile)
    ensures Flatten(init + [last + [f]]) == Flatten(init + [last]) + [f]
  {
    assert (init + [last + [f]])[..|init|] == init;
    assert (init + [last])[..|init|] == init;
  }

  /** `GroupRuns` splits the files into maximal runs and loses nothing. */
  lemma {:induction false} GroupRunsAreMaximal(fs: seq<DatedFile>)
    ensures Flatten(GroupRuns(fs)) == fs
    ensures MaximalRuns(GroupRuns(fs))
    ensures |fs| > 0 <==> |GroupRuns(fs)| > 0
    ensures |fs| > 0 ==> GroupRuns(fs)[|GroupRuns(fs)| - 1][0].date == fs[|fs| - 1].date
    decreases |fs|
  {
    if |fs| > 0 {
      var init, f := fs[..|fs| - 1], fs[|fs| - 1];
      assert fs == init + [f];
      GroupRunsSnoc(init, f);
      GroupRunsAreMaximal(init);
      ExtendKeepsRuns(GroupRuns(init), f);
    }
  }

  lemma GroupRunsSnoc(pre: seq<DatedFile>, f: DatedFile)
    ensures GroupRuns(pre + [f]) == Extend(GroupRuns(pre), f)
  {
    assert (pre + [f])[..|pre|] == pre;
  }

  /** The `n_groups` empty lists the script allocates. */
  function Pad(n: nat): (gs: seq<seq<DatedFile>>)
    ensures |gs| == n && forall j :: 0 <= j < n ==> gs[j] == []
  {
    seq(n, j => [])
  }

  /** The script's single pass, from file `k` on, with `i` the current list. */
  function Walk(fs: seq<DatedFile>, k: nat, i: nat, groups: seq<seq<DatedFile>>): (r: Result<seq<seq<DatedFile>>, GroupError>)
    ensures r.Failure? ==> r.error == GroupIndexOverrun
    decreases |fs| - k
  {
    if k >= |fs| then Success(groups)
    else if i >= |groups| then Failure(GroupIndexOverrun)
    else if |groups[i]| == 0 then Walk(fs, k + 1, i, groups[i := [fs[k]]])
    else if groups[i][0].date == fs[k].date then Walk(fs, k + 1, i, groups[i := groups[i] + [fs[k]]])
    else if i + 1 >= |groups| then Failure(GroupIndexOverrun)
    else Walk(fs, k + 1, i + 1, groups[i + 1 := groups[i + 1] + [fs[k]]])
  }

  /** The grouping as the script performs it. */
  function GroupAsWritten(fs: seq<DatedFile>): (r: Result<seq<seq<DatedFile>>, GroupError>)
    ensures r.Failure? ==> r.error == GroupIndexOverrun
  {
    Walk(fs, 0, 0, Pad(|DistinctDates(fs)|))
  }

  /** What the walk ends with when `n` lists are allocated: the runs, padded
      with empty lists, or an overrun once there are more runs than lists. */
  function WalkOutcome(fs: seq<DatedFile>, n: nat): Result<seq<seq<DatedFile>>, GroupError> {
    var runs := GroupRuns(fs);
    if |runs| <= n then Success(runs + Pad(n - |runs|)) else Failure(GroupIndexOverrun)
  }

  lemma {:induction false} RunsPrefixMonotone(fs: seq<DatedFile>, j: nat)
    requires j <= |fs|
    ensures |GroupRuns(fs[..j])| <= |GroupRuns(fs)|
    decreases |fs|
  {
    if j < |fs| {
      var init := fs[..|fs| - 1];
      assert init[..j] == fs[..j];
      RunsPrefixMonotone(init, j);
    } else {
      assert fs[..j] == fs;
    }
  }

  /** The invariant of the walk: after `k` files the lists hold the runs of
      those files and the current list is the last run. */
  lemma {:induction false} WalkFrom(fs: seq<DatedFile>, k: nat, n: nat)
    requires 1 <= k <= |fs| && |GroupRuns(fs[..k])| <= n
    ensures Walk(fs, k, |GroupRuns(fs[..k])| - 1, GroupRuns(fs[..k]) + Pad(n - |GroupRuns(fs[..k])|)) == WalkOutcome(fs, n)
    decreases |fs| - k
  {
    if k == |fs| {
      WalkFromEnd(fs, k, n);
    } else {
      WalkFromStep(fs, k, n);
      if |GroupRuns(fs[..k + 1])| <= n {
        WalkFrom(fs, k + 1, n);
      }
    }
  }

  lemma WalkFromEnd(fs: seq<DatedFile>, k: nat, n: nat)
    requires 1 <= k == |fs| && |GroupRuns(fs[..k])| <= n
    ensures Walk(fs, k, |GroupRuns(fs[..k])| - 1, GroupRuns(fs[..k]) + Pad(n - |GroupRuns(fs[..k])|)) == WalkOutcome(fs, n)
  {
    assert fs[..|fs|] == fs;
  }

  /** One step of the walk from `k`: it either continues from `k + 1` with
      the runs of one more file, or overruns, and then so does the whole. */
  lemma WalkFromStep(fs: seq<DatedFile>, k: nat, n: nat)
    requires 1 <= k < |fs| && |GroupRuns(fs[..k])| <= n
    ensures var runs := GroupRuns(fs[..k]);
      var next := GroupRuns(fs[..k + 1]);
      next == Extend(runs, fs[k]) &&
      if |next| <= n
      then Walk(fs, k, |runs| - 1, runs + Pad(n - |runs|)) == Walk(fs, k + 1, |next| - 1, next + Pad(n - |next|))
      else Walk(fs, k, |runs| - 1, runs + Pad(n - |runs|)) == WalkOutcome(fs, n)
  {
    var runs := GroupRuns(fs[..k]);
    GroupRunsAreMaximal(fs[..k]);
    GroupRunsNext(fs, k);
    WalkStep(fs, k, n, runs);
    if |Extend(runs, fs[k])| > n {
      RunsPrefixMonotone(fs, k + 1);
    }
  }

  lemma GroupRunsNext(fs: seq<DatedFile>, k: nat)
    requires k < |fs|
    ensures GroupRuns(fs[..k + 1]) == Extend(GroupRuns(fs[..k]), fs[k])
  {
    assert fs[..k + 1] == fs[..k] + [fs[k]];
    GroupRunsSnoc(fs[..k], fs[k]);
  }

  /** One step of the walk extends the runs by the next file, or overruns
      when that file starts one run more than there are lists. */
  lemma WalkStep(fs: seq<DatedFile>, k: nat, n: nat, runs: seq<seq<DatedFile>>)
    requires k < |fs| && MaximalRuns(runs) && 0 < |runs| <= n
    ensures var next := Extend(runs, fs[k]);
            if |next| <= n
            then Walk(fs, k, |runs| - 1, runs + Pad(n - |runs|)) == Walk(fs, k + 1, |next| - 1, next + Pad(n - |next|))
            else Walk(fs, k, |runs| - 1, runs + Pad(n - |runs|)) == Failure(GroupIndexOverrun)
  {
    var f := fs[k];
    var groups := runs + Pad(n - |runs|);
    var i := |runs| - 1;
    var next := Extend(runs, f);
    assert groups[i] == runs[i];
    if runs[i][0].date == f.date {
      assert Walk(fs, k, i, groups) == Walk(fs, k + 1, i, groups[i := groups[i] + [f]]);
      assert next == runs[..i] + [runs[i] + [f]] && |next| == |runs|;
      PadAppendLast(runs, n - |runs|, f);
    } else if i + 1 >= |groups| {
      assert Walk(fs, k, i, groups) == Failure(GroupIndexOverrun);
    } else {
      assert Walk(fs, k, i, groups) == Walk(fs, k + 1, i + 1, groups[i + 1 := groups[i + 1] + [f]]);
      assert next == runs + [[f]];
      PadExtend(runs, n - |runs|, f);
    }
  }

  lemma PadAppendLast(runs: seq<seq<DatedFile>>, m: nat, f: DatedFile)
    requires |runs| > 0
    ensures var i := |runs| - 1;
            (runs + Pad(m))[i := (runs + Pad(m))[i] + [f]] == runs[..i] + [runs[i] + [f]] + Pad(m)
  {
    var i := |runs| - 1;
    var lhs := (runs + Pad(m))[i := (runs + Pad(m))[i] + [f]];
    var rhs := runs[..i] + [runs[i] + [f]] + Pad(m);
    assert |lhs| == |rhs|;
    forall j | 0 <= j < |lhs|
      ensures lhs[j] == rhs[j]
    {
      if j < i {
        assert lhs[j] == runs[j];
      } else if j > i {
        assert lhs[j] == Pad(m)[j - |runs|] == rhs[j];
      }
    }
  }

  lemma PadExtend(runs: seq<seq<DatedFile>>, m: nat, f: DatedFile)
    requires m > 0
    ensures (runs + Pad(m))[|runs| := (runs + Pad(m))[|runs|] + [f]] == runs + [[f]] + Pad(m - 1)
  {
    var lhs := (runs + Pad(m))[|runs| := (runs + Pad(m))[|runs|] + [f]];
    var rhs := runs + [[f]] + Pad(m - 1);
    assert (runs + Pad(m))[|runs|] == [];
    assert |lhs| == |rhs|;
    forall j | 0 <= j < |lhs|
      ensures lhs[j] == rhs[j]
    {
      if j < |runs| {
        assert lhs[j] == runs[j];
      } else if j > |runs| {
        assert lhs[j] == Pad(m)[j - |runs|] == [] == rhs[j];
      }
    }
  }

  /** The walk succeeds exactly when the runs fit into the allocated lists,
      and then returns the runs. */
  lemma WalkIsRuns(fs: seq<DatedFile>, n: nat)
    requires |fs| > 0 ==> n > 0
    ensures Walk(fs, 0, 0, Pad(n)) == WalkOutcome(fs, n)
  {
    if |fs| > 0 {
      FirstRun(fs);
      WalkFirstStep(fs, n);
      WalkFrom(fs, 1, n);
    } else {
      assert GroupRuns(fs) + Pad(n) == Pad(n);
    }
  }

  lemma FirstRun(fs: seq<DatedFile>)
    requires |fs| > 0
    ensures GroupRuns(fs[..1]) == [[fs[0]]]
  {
    assert fs[..1] == [] + [fs[0]];
    GroupRunsSnoc([], fs[0]);
  }

  /** The walk's first step fills the first list with the first file. */
  lemma WalkFirstStep(fs: seq<DatedFile>, n: nat)
    requires |fs| > 0 && n > 0
    ensures Walk(fs, 0, 0, Pad(n)) == Walk(fs, 1, 0, [[fs[0]]] + Pad(n - 1))
  {
    assert Pad(n)[0 := [fs[0]]] == [[fs[0]]] + Pad(n - 1);
  }

  /** How contiguity changes when one file is appended: a prefix of a
      contiguous list is contiguous; appending keeps contiguity when the date
      is fresh or continues the last file's; and a repeated date has to
      continue the last file's. */
  lemma ContiguousSnoc(init: seq<DatedFile>, f: DatedFile)
    ensures Contiguous(init + [f]) ==> Contiguous(init)
    ensures Contiguous(init) && (!HasDate(init, f.date) || (|init| > 0 && init[|init| - 1].date == f.date))
            ==> Contiguous(init + [f])
    ensures Contiguous(init + [f]) && HasDate(init, f.date) ==> init[|init| - 1].date == f.date
  {
    if Contiguous(init + [f]) {
      ContiguousInit(init, f);
    }
    if Contiguous(init) && (!HasDate(init, f.date) || (|init| > 0 && init[|init| - 1].date == f.date)) {
      ContiguousExtend(init, f);
    }
  }

  /** Dropping the last file keeps the dates contiguous, and a date seen
      before the last file must be the date of the file before it. */
  lemma ContiguousInit(init: seq<DatedFile>, f: DatedFile)
    requires Contiguous(init + [f])
    ensures Contiguous(init)
    ensures HasDate(init, f.date) ==> init[|init| - 1].date == f.date
  {
    var fs := init + [f];
    var n := |fs|;
    forall a, b, c | 0 <= a < b < c < |init| && init[a].date == init[c].date
      ensures init[b].date == init[a].date
    {
      assert fs[a] == init[a] && fs[b] == init[b] && fs[c] == init[c];
    }
    if HasDate(init, f.date) {
      var a :| 0 <= a < |init| && init[a].date == f.date;
      if a < |init| - 1 {
        assert fs[a].date == fs[n - 1].date;
        assert fs[n - 2] == init[|init| - 1];
      }
    }
  }

  /** A file with a new date, or with the date of the last file, keeps the
      dates contiguous. */
  lemma ContiguousExtend(init: seq<DatedFile>, f: DatedFile)
    requires Contiguous(init)
    requires !HasDate(init, f.date) || (|init| > 0 && init[|init| - 1].date == f.date)
    ensures Contiguous(init + [f])
  {
    var fs := init + [f];
    var n := |fs|;
    forall a, b, c | 0 <= a < b < c < n && fs[a].date == fs[c].date
      ensures fs[b].date == fs[a].date
    {
      assert fs[a] == init[a] && fs[b] == init[b];
      if c < n - 1 {
        assert fs[c] == init[c];
      } else {
        assert HasDate(init, f.date);
        if b < n - 2 {
          assert fs[n - 2] == init[n - 2];
        }
      }
    }
  }

  /** There are never fewer runs than distinct dates, and exactly as many
      when the dates are contiguous. */
  lemma {:induction false} RunsVsDistinct(fs: seq<DatedFile>)
    ensures |GroupRuns(fs)| >= |DistinctDates(fs)|
    ensures |GroupRuns(fs)| == |DistinctDates(fs)| <==> Contiguous(fs)
    decreases |fs|
  {
    if |fs| > 0 {
      var init := fs[..|fs| - 1];
      var f := fs[|fs| - 1];
      assert fs == init + [f];
      RunsVsDistinct(init);
      RunsVsDistinctStep(init, f);
    }
  }

  lemma RunsVsDistinctStep(init: seq<DatedFile>, f: DatedFile)
    requires |GroupRuns(init)| >= |DistinctDates(init)|
    requires |GroupRuns(init)| == |DistinctDates(init)| <==> Contiguous(init)
    ensures |GroupRuns(init + [f])| >= |DistinctDates(init + [f])|
    ensures |GroupRuns(init + [f])| == |DistinctDates(init + [f])| <==> Contiguous(init + [f])
  {
    var runs: seq<seq<DatedFile>> := GroupRuns(init);
    GroupRunsAreMaximal(init);
    GroupRunsSnoc(init, f);
    DistinctDatesSnoc(init, f);
    ContiguousSnoc(init, f);
    if |init| > 0 {
      assert HasDate(init, init[|init| - 1].date);
    }
    if |runs| > 0 && runs[|runs| - 1][0].date == f.date {
      assert |Extend(runs, f)| == |runs|;
      assert HasDate(init, f.date);
    } else {
      assert |Extend(runs, f)| == |runs| + 1;
    }
  }

  /** The files of one date, in listing order. */
  function WithDate(fs: seq<DatedFile>, d: string): (g: seq<DatedFile>)
    ensures forall x :: x in g <==> x in fs && x.date == d
    decreases |fs|
  {
    if |fs| == 0 then []
    else
      var init := fs[..|fs| - 1];
      assert fs == init + [fs[|fs| - 1]];
      WithDate(init, d) + (if fs[|fs| - 1].date == d then [fs[|fs| - 1]] else [])
  }

  /** Every copy of a file of that date is kept, and nothing else. */
  lemma {:induction false} WithDateCount(fs: seq<DatedFile>, d: string, v: DatedFile)
    ensures multiset(WithDate(fs, d))[v] == if v.date == d then multiset(fs)[v] else 0
    decreases |fs|
  {
    if |fs| > 0 {
      var init := fs[..|fs| - 1];
      assert fs == init + [fs[|fs| - 1]];
      WithDateCount(init, d, v);
    }
  }

  /** The grouping the script intends: one group per distinct date, in order
      of first appearance, each holding that date's files in listing order. */
  function GroupByDate(fs: seq<DatedFile>): (groups: seq<seq<DatedFile>>)
    ensures |groups| == |DistinctDates(fs)|
    ensures forall k :: 0 <= k < |groups| ==>
              |groups[k]| > 0 && Uniform(groups[k]) && groups[k][0].date == DistinctDates(fs)[k]
  {
    var ds := DistinctDates(fs);
    var groups := seq(|ds|, k requires 0 <= k < |ds| => WithDate(fs, ds[k]));
    assert forall k :: 0 <= k < |groups| ==> |groups[k]| > 0 by {
      forall k | 0 <= k < |groups| ensures |groups[k]| > 0 {
        assert HasDate(fs, ds[k]);
        var i :| 0 <= i < |fs| && fs[i].date == ds[k];
        assert fs[i] in groups[k];
      }
    }
    assert forall k :: 0 <= k < |groups| ==> groups[k][0] in groups[k];
    groups
  }

  /** The groups come in order of first appearance of their dates. */
  lemma GroupByDateInOrder(fs: seq<DatedFile>, a: nat, b: nat, j: nat)
    requires a < b < |GroupByDate(fs)| && j < |fs| && fs[j].date == GroupByDate(fs)[b][0].date
    ensures exists i :: 0 <= i < j && fs[i].date == GroupByDate(fs)[a][0].date
  {
    DistinctDatesInOrder(fs, a, b, j);
  }

  lemma {:induction false} FlattenCountNone(gs: seq<seq<DatedFile>>, v: DatedFile)
    requires forall j :: 0 <= j < |gs| ==> v !in gs[j]
    ensures multiset(Flatten(gs))[v] == 0
    decreases |gs|
  {
    if |gs| > 0 {
      FlattenCountNone(gs[..|gs| - 1], v);
    }
  }

  lemma {:induction false} FlattenCountSingle(gs: seq<seq<DatedFile>>, v: DatedFile, k: nat)
    requires k < |gs| && forall j :: 0 <= j < |gs| && j != k ==> v !in gs[j]
    ensures multiset(Flatten(gs))[v] == multiset(gs[k])[v]
    decreases |gs|
  {
    var init := gs[..|gs| - 1];
    if k == |gs| - 1 {
      FlattenCountNone(init, v);
    } else {
      FlattenCountSingle(init, v, k);
    }
  }

  /** Every file lands in exactly one group: the groups together are a
      permutation of the files. */
  lemma GroupByDatePartitions(fs: seq<DatedFile>)
    ensures multiset(Flatten(GroupByDate(fs))) == multiset(fs)
    ensures forall a, b :: 0 <= a < b < |GroupByDate(fs)| ==> GroupByDate(fs)[a][0].date != GroupByDate(fs)[b][0].date
  {
    var groups := GroupByDate(fs);
    var ds := DistinctDates(fs);
    forall v
      ensures multiset(Flatten(groups))[v] == multiset(fs)[v]
    {
      if v.date in ds {
        var k :| 0 <= k < |ds| && ds[k] == v.date;
        FlattenCountSingle(groups, v, k);
        WithDateCount(fs, ds[k], v);
      } else {
        FlattenCountNone(groups, v);
      }
    }
    assert multiset(Flatten(groups)) == multiset(fs);
  }

  lemma WithDateSnoc(init: seq<DatedFile>, f: DatedFile, d: string)
    ensures WithDate(init + [f], d) == WithDate(init, d) + (if f.date == d then [f] else [])
  {
    assert (init + [f])[..|init|] == init;
  }

  lemma DistinctDatesSnoc(init: seq<DatedFile>, f: DatedFile)
    ensures DistinctDates(init + [f]) ==
            if f.date in DistinctDates(init) then DistinctDates(init) else DistinctDates(init) + [f.date]
  {
    assert (init + [f])[..|init|] == init;
  }

  /** A file of a new date opens a new group at the end. */
  lemma ByDateSnocFresh(init: seq<DatedFile>, f: DatedFile)
    requires f.date !in DistinctDates(init)
    ensures GroupByDate(init + [f]) == GroupByDate(init) + [[f]]
  {
    var ds := DistinctDates(init);
    DistinctDatesSnoc(init, f);
    var g := GroupByDate(init);
    var h := GroupByDate(init + [f]);
    forall k | 0 <= k < |h|
      ensures h[k] == if k == |g| then [f] else g[k]
    {
      ByDateSnocFreshAt(init, f, k);
    }
    AppendGroup(h, g, [f]);
  }

  /** Group `k` after a file of a new date: the new last group holds it
      alone, the others are unchanged. */
  lemma ByDateSnocFreshAt(init: seq<DatedFile>, f: DatedFile, k: nat)
    requires DistinctDates(init + [f]) == DistinctDates(init) + [f.date]
    requires f.date !in DistinctDates(init) && k <= |DistinctDates(init)|
    ensures GroupByDate(init + [f])[k] ==
            if k == |DistinctDates(init)| then [f] else GroupByDate(init)[k]
  {
    var ds := DistinctDates(init);
    ByDateAt(init + [f], k);
    WithDateSnoc(init, f, (ds + [f.date])[k]);
    if k == |ds| {
      WithDateNonEmpty(init, f.date);
    } else {
      ByDateAt(init, k);
    }
  }

  /** A list of lists that is `g` with `x` appended as one more list. */
  lemma AppendGroup<T>(h: seq<seq<T>>, g: seq<seq<T>>, x: seq<T>)
    requires |h| == |g| + 1
    requires forall k :: 0 <= k < |h| ==> h[k] == if k == |g| then x else g[k]
    ensures h == g + [x]
  {
  }

  lemma WithDateNonEmpty(fs: seq<DatedFile>, d: string)
    ensures |WithDate(fs, d)| > 0 ==> HasDate(fs, d)
  {
    var g := WithDate(fs, d);
    if |g| > 0 {
      assert g[0] in fs;
      var i :| 0 <= i < |fs| && fs[i] == g[0];
    }
  }

  /** When every date's files are contiguous, the maximal runs are exactly
      the groups by date. */
  lemma {:induction false} ContiguousRunsAreByDate(fs: seq<DatedFile>)
    requires Contiguous(fs)
    ensures GroupRuns(fs) == GroupByDate(fs)
    decreases |fs|
  {
    if |fs| > 0 {
      var init := fs[..|fs| - 1];
      var f := fs[|fs| - 1];
      assert fs == init + [f];
      ContiguousSnoc(init, f);
      ContiguousRunsAreByDate(init);
      if f.date in DistinctDates(init) {
        ContiguousSeenStep(init, f);
      } else {
        ContiguousFreshStep(init, f);
      }
    }
  }

  lemma ContiguousSeenStep(init: seq<DatedFile>, f: DatedFile)
    requires Contiguous(init + [f]) && GroupRuns(init) == GroupByDate(init)
    requires f.date in DistinctDates(init)
    ensures GroupRuns(init + [f]) == GroupByDate(init + [f])
  {
    var runs: seq<seq<DatedFile>> := GroupRuns(init);
    SeenDateIsLast(init, f);
    GroupRunsSnoc(init, f);
    ByDateSnocLast(init, f);
    var m := |runs|;
    assert Extend(runs, f) == runs[..m - 1] + [runs[m - 1] + [f]];
  }

  /** A file of the last date seen joins the last group. */
  lemma ByDateSnocLast(init: seq<DatedFile>, f: DatedFile)
    requires |DistinctDates(init)| > 0 && DistinctDates(init)[|DistinctDates(init)| - 1] == f.date
    ensures var g := GroupByDate(init);
            GroupByDate(init + [f]) == g[..|g| - 1] + [g[|g| - 1] + [f]]
  {
    var g := GroupByDate(init);
    var m := |g|;
    DistinctDatesSnoc(init, f);
    var h := GroupByDate(init + [f]);
    forall k | 0 <= k < m
      ensures h[k] == if k == m - 1 then g[k] + [f] else g[k]
    {
      ByDateSnocLastAt(init, f, k);
    }
    AppendToLast(h, g, f);
  }

  /** A list of lists that differs from `g` only by `f` added to the last. */
  lemma AppendToLast<T>(h: seq<seq<T>>, g: seq<seq<T>>, f: T)
    requires |g| > 0 && |h| == |g|
    requires forall k :: 0 <= k < |g| ==> h[k] == if k == |g| - 1 then g[k] + [f] else g[k]
    ensures h == g[..|g| - 1] + [g[|g| - 1] + [f]]
  {
  }

  /** Group `k` after a file of the last date: the last group gains it,
      the others are unchanged. */
  lemma ByDateSnocLastAt(init: seq<DatedFile>, f: DatedFile, k: nat)
    requires k < |DistinctDates(init)| && DistinctDates(init)[|DistinctDates(init)| - 1] == f.date
    requires DistinctDates(init + [f]) == DistinctDates(init)
    ensures GroupByDate(init + [f])[k] ==
            if k == |DistinctDates(init)| - 1 then GroupByDate(init)[k] + [f] else GroupByDate(init)[k]
  {
    var ds := DistinctDates(init);
    ByDateAt(init + [f], k);
    ByDateAt(init, k);
    WithDateSnoc(init, f, ds[k]);
    if k < |ds| - 1 {
      assert ds[k] != ds[|ds| - 1];
    }
  }

  lemma ByDateAt(fs: seq<DatedFile>, k: nat)
    requires k < |DistinctDates(fs)|
    ensures GroupByDate(fs)[k] == WithDate(fs, DistinctDates(fs)[k])
  {
  }

  /** Under contiguity a repeated date is the date of the last run. */
  lemma SeenDateIsLast(init: seq<DatedFile>, f: DatedFile)
    requires Contiguous(init + [f]) && GroupRuns(init) == GroupByDate(init)
    requires f.date in DistinctDates(init)
    ensures 0 < |GroupRuns(init)| == |DistinctDates(init)|
    ensures GroupRuns(init)[|GroupRuns(init)| - 1][0].date == f.date
    ensures DistinctDates(init)[|DistinctDates(init)| - 1] == f.date
  {
    GroupRunsAreMaximal(init);
    ContiguousSnoc(init, f);
  }

  lemma ContiguousFreshStep(init: seq<DatedFile>, f: DatedFile)
    requires GroupRuns(init) == GroupByDate(init)
    requires f.date !in DistinctDates(init)
    ensures GroupRuns(init + [f]) == GroupByDate(init + [f])
  {
    var runs: seq<seq<DatedFile>> := GroupRuns(init);
    GroupRunsAreMaximal(init);
    GroupRunsSnoc(init, f);
    ByDateSnocFresh(init, f);
    if |runs| > 0 {
      assert HasDate(init, init[|init| - 1].date);
    }
  }

  /** The script's grouping succeeds exactly when each date's files are
      contiguous, and then it is the grouping by date. */
  lemma GroupAsWrittenOutcome(fs: seq<DatedFile>)
    ensures GroupAsWritten(fs).Success? <==> Contiguous(fs)
    ensures GroupAsWritten(fs).Success? ==> GroupAsWritten(fs).value == GroupByDate(fs)
  {
    var n := |DistinctDates(fs)|;
    if |fs| > 0 {
      assert fs[0].date in DistinctDates(fs) by {
        assert HasDate(fs, fs[0].date);
      }
    }
    WalkIsRuns(fs, n);
    RunsVsDistinct(fs);
    if Contiguous(fs) {
      ContiguousRunsAreByDate(fs);
      assert GroupRuns(fs) + Pad(0) == GroupRuns(fs);
    }
  }

  /** A date that comes back after a different one makes the script fail. */
  lemma InterleavedDatesOverrun()
    ensures GroupAsWritten([DatedFile(RawFile("A", []), "1-18-79"),
                            DatedFile(RawFile("B", []), "1-18-79A"),
                            DatedFile(RawFile("C", []), "1-18-79")]).Failure?
  {
    var fs := [DatedFile(RawFile("A", []), "1-18-79"),
               DatedFile(RawFile("B", []), "1-18-79A"),
               DatedFile(RawFile("C", []), "1-18-79")];
    assert !Contiguous(fs) by {
      assert fs[0].date == fs[2].date && fs[1].date != fs[0].date;
    }
    GroupAsWrittenOutcome(fs);
  }

  /** The multi-part note is written exactly when two files share a date. */
  lemma {:induction false} MultiPartNote(fs: seq<DatedFile>)
    ensures |DistinctDates(fs)| <= |fs|
    ensures |DistinctDates(fs)| < |fs| <==> exists a, b :: 0 <= a < b < |fs| && fs[a].date == fs[b].date
    decreases |fs|
  {
    if |fs| > 0 {
      var init := fs[..|fs| - 1];
      var f := fs[|fs| - 1];
      MultiPartNote(init);
      HasDateSnoc(fs);
      if HasDate(init, f.date) {
        var a :| 0 <= a < |init| && init[a].date == f.date;
        assert fs[a].date == fs[|fs| - 1].date;
      } else {
        if exists a, b :: 0 <= a < b < |fs| && fs[a].date == fs[b].date {
          var a, b :| 0 <= a < b < |fs| && fs[a].date == fs[b].date;
          if b == |fs| - 1 {
            assert false;
          }
          assert init[a].date == init[b].date;
        }
        if exists a, b :: 0 <= a < b < |init| && init[a].date == init[b].date {
          var a, b :| 0 <= a < b < |init| && init[a].date == init[b].date;
          assert fs[a].date == fs[b].date;
        }
      }
    }
  }
}
