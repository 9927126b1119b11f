/** Preparing one subject's recordings: the previous run's merged days are
    deleted, the naming format is chosen, the matching files are put in
    date order, grouped by date and merged into one "_full.csv" record per
    day. */
module Preparation {
  import opened Results
  import opened Strings
  import opened Glob
  import opened Naming
  import opened DayOrder
  import opened DayGroups
  import opened DayMerge

  datatype Outcome =
    | NoReadableData
    | Failed(error: GroupError)
    | Prepared(format: Format, days: seq<DayRecord>, multiPart: bool)

  /** The listing once `*_full.csv` files are removed. */
  function Fresh(files: seq<RawFile>): seq<RawFile>
    decreases |files|
  {
    if |files| == 0 then []
    else (if EndsWith(files[0].name, FullSuffix) then [] else [files[0]]) + Fresh(files[1..])
  }

  /** Deleting the merged days removes every `_full.csv` file and keeps
      every copy of every other file. */
  lemma FreshKeeps(files: seq<RawFile>, f: RawFile)
    ensures multiset(Fresh(files))[f] == if EndsWith(f.name, FullSuffix) then 0 else multiset(files)[f]
    ensures f in Fresh(files) <==> f in files && !EndsWith(f.name, FullSuffix)
  {
    FreshCount(files, f, EndsWith(f.name, FullSuffix));
    assert f in Fresh(files) <==> f in multiset(Fresh(files));
    assert f in files <==> f in multiset(files);
  }

  lemma {:induction false} FreshCount(files: seq<RawFile>, f: RawFile, merged: bool)
    requires merged == EndsWith(f.name, FullSuffix)
    ensures multiset(Fresh(files))[f] == if merged then 0 else multiset(files)[f]
    decreases |files|
  {
    if |files| > 0 {
      FreshCount(files[1..], f, merged);
      var head := if EndsWith(files[0].name, FullSuffix) then [] else [files[0]];
      assert Fresh(files) == head + Fresh(files[1..]);
      assert files == [files[0]] + files[1..];
      assert multiset(files)[f] == multiset{files[0]}[f] + multiset(files[1..])[f];
      assert multiset(Fresh(files))[f] == multiset(head)[f] + multiset(Fresh(files[1..]))[f];
    }
  }

  /** The files of the chosen format, in the order they are merged. */
  function Selected(listing: seq<RawFile>, fmt: Format, tId: string): seq<RawFile> {
    OrderFiles(fmt, Matching(listing, Pattern(fmt, tId)))
  }

  /** The steps after the old merges are gone, as the script performs
      them: choose the format, keep and order its files, then date, group
      and merge them. */
  function PrepareListing(listing: seq<RawFile>, tId: string): (o: Outcome)
    ensures o.Prepared? ==> |o.days| > 0
    ensures o.Prepared? ==> forall k :: 0 <= k < |o.days| ==> EndsWith(o.days[k].name, FullSuffix)
    ensures o.Failed? ==> o.error.MissingDateField? || o.error == GroupIndexOverrun || o.error == EmptyDayList
  {
    match DetectFormat(Names(listing), tId)
    case None => NoReadableData
    case Some(fmt) => MergeDays(fmt, Selected(listing, fmt, tId))
  }

  /** Dating, grouping and merging the ordered files. The run aborts when
      there is no file (the grouping variables are then never set, and the
      merge loop indexes an empty list), and when the grouping walk
      overruns because a date comes back after a different one. */
  function MergeDays(fmt: Format, day: seq<RawFile>): (o: Outcome)
    ensures o.Prepared? ==> o.format == fmt && |o.days| > 0
    ensures o.Prepared? ==> forall k :: 0 <= k < |o.days| ==> EndsWith(o.days[k].name, FullSuffix)
    ensures o.Failed? ==> o.error.MissingDateField? || o.error == GroupIndexOverrun || o.error == EmptyDayList
    ensures o == Failed(EmptyDayList) <==> |day| == 0
    ensures !o.NoReadableData?
  {
    if |day| == 0 then Failed(EmptyDayList)
    else
      match DateFiles(day, fmt)
      case Failure(e) => Failed(e)
      case Success(dated) =>
        match GroupAsWritten(dated)
        case Failure(e) => Failed(e)
        case Success(groups) =>
          GroupAsWrittenOutcome(dated);
          SomeDate(dated);
          Prepared(fmt, MergeAll(groups), |DistinctDates(dated)| < |dated|)
  }

  /** The same steps with one group per distinct date, as the grouping is
      meant to work. */
  function PrepareListingByDate(listing: seq<RawFile>, tId: string): (o: Outcome)
    ensures o.Prepared? ==> |o.days| > 0
    ensures o.Prepared? ==> forall k :: 0 <= k < |o.days| ==> EndsWith(o.days[k].name, FullSuffix)
    ensures o.Failed? ==> o.error.MissingDateField? || o.error == EmptyDayList
  {
    match DetectFormat(Names(listing), tId)
    case None => NoReadableData
    case Some(fmt) => MergeDaysByDate(fmt, Selected(listing, fmt, tId))
  }

  /** Intended dating, grouping and merging; an empty list of files still
      aborts the run. */
  function MergeDaysByDate(fmt: Format, day: seq<RawFile>): (o: Outcome)
    ensures o.Prepared? ==> o.format == fmt && |o.days| > 0
    ensures o.Prepared? ==> forall k :: 0 <= k < |o.days| ==> EndsWith(o.days[k].name, FullSuffix)
    ensures o.Failed? ==> o.error.MissingDateField? || o.error == EmptyDayList
    ensures o == Failed(EmptyDayList) <==> |day| == 0
    ensures !o.NoReadableData?
  {
    if |day| == 0 then Failed(EmptyDayList)
    else
      match DateFiles(day, fmt)
      case Failure(e) => Failed(e)
      case Success(dated) =>
        SomeDate(dated);
        Prepared(fmt, MergeAll(GroupByDate(dated)), |DistinctDates(dated)| < |dated|)
  }

  /** A non-empty list of dated files has at least one date. */
  lemma SomeDate(dated: seq<DatedFile>)
    ensures |dated| > 0 ==> |DistinctDates(dated)| > 0
  {
    if |dated| > 0 {
      assert HasDate(dated, dated[0].date);
      assert dated[0].date in DistinctDates(dated);
    }
  }

  /** A lone Format 1 or 2 file that does not end with its own stripped
      name leaves nothing to group, and the run aborts. */
  lemma LoneUnsuffixedAborts(f: RawFile, tId: string)
    requires DetectFormat(Names([f]), tId).Some? && DetectFormat(Names([f]), tId).value != Format3
    requires !EndsWith(f.name, Strip(f.name))
    ensures PrepareListing([f], tId) == Failed(EmptyDayList)
  {
    var fmt := DetectFormat(Names([f]), tId).value;
    var m := Matching([f], Pattern(fmt, tId));
    MatchingKeeps([f], Pattern(fmt, tId), f);
    if |m| > 0 {
      assert m[0] in m;
      MatchingKeeps([f], Pattern(fmt, tId), m[0]);
      assert m == [f] by {
        assert m == (if GlobMatch(Pattern(fmt, tId), f.name) then [f] else []) + Matching([], Pattern(fmt, tId));
      }
      DroppedWhenNotSelfSuffixed(f);
    }
    assert Selected([f], fmt, tId) == [];
  }

  /** The script's preparation differs from the intended one only by
      aborting, and it aborts exactly when the dated files of the chosen
      format are not contiguous by date. */
  lemma ListingAsWrittenVsByDate(listing: seq<RawFile>, tId: string)
    ensures var o := PrepareListing(listing, tId);
      var fmt := DetectFormat(Names(listing), tId);
      (o == Failed(GroupIndexOverrun) <==>
         fmt.Some? && DateFiles(Selected(listing, fmt.value, tId), fmt.value).Success?
         && !Contiguous(DateFiles(Selected(listing, fmt.value, tId), fmt.value).value))
      && (o != Failed(GroupIndexOverrun) ==> o == PrepareListingByDate(listing, tId))
  {
    var fmt := DetectFormat(Names(listing), tId);
    if fmt.Some? {
      var r := DateFiles(Selected(listing, fmt.value, tId), fmt.value);
      if r.Success? {
        GroupAsWrittenOutcome(r.value);
      }
    }
  }

  /** The days do not depend on the order in which the directory lists
      the files, as long as Formats 1 and 2 have no suffix collision: the
      re-sort is then a sort, and every sort of distinct keys agrees. */
  lemma ListingOrderIrrelevant(a: seq<RawFile>, b: seq<RawFile>, tId: string)
    requires multiset(a) == multiset(b) && DistinctNames(a) && DistinctNames(b)
    requires DetectFormat(Names(a), tId) != Some(Format3) ==> NoSuffixCollision(a)
    ensures PrepareListing(a, tId) == PrepareListing(b, tId)
    ensures PrepareListingByDate(a, tId) == PrepareListingByDate(b, tId)
  {
    forall f ensures f in a <==> f in b {
      assert f in a <==> f in multiset(a);
      assert f in b <==> f in multiset(b);
    }
    DetectFormatSameFiles(a, b, tId);
    var fmt := DetectFormat(Names(a), tId);
    if fmt.Some? {
      SelectedIgnoresListingOrder(a, b, fmt.value, tId);
    }
  }

  /** Both listings leave the same files, in the same order, to group. */
  lemma SelectedIgnoresListingOrder(a: seq<RawFile>, b: seq<RawFile>, fmt: Format, tId: string)
    requires multiset(a) == multiset(b) && DistinctNames(a) && DistinctNames(b)
    requires fmt != Format3 ==> NoSuffixCollision(a)
    ensures Selected(a, fmt, tId) == Selected(b, fmt, tId)
  {
    var p := Pattern(fmt, tId);
    MatchingSameFiles(a, b, p);
    forall f ensures multiset(Matching(a, p))[f] <= multiset(a)[f] && multiset(Matching(b, p))[f] <= multiset(b)[f] {
      MatchingKeeps(a, p, f);
      MatchingKeeps(b, p, f);
    }
    DistinctNamesWithin(Matching(a, p), a);
    DistinctNamesWithin(Matching(b, p), b);
    if fmt != Format3 {
      assert NoSuffixCollision(Matching(a, p)) by {
        forall f | f in Matching(a, p) ensures f in a {
          MatchingKeeps(a, p, f);
        }
      }
    }
    OrderFilesIgnoresListingOrder(fmt, Matching(a, p), Matching(b, p));
  }

  /** The same for a whole subject directory, old merged days included. */
  lemma SubjectOrderIrrelevant(a: seq<RawFile>, b: seq<RawFile>, tId: string)
    requires multiset(a) == multiset(b) && DistinctNames(a) && DistinctNames(b)
    requires DetectFormat(Names(Fresh(a)), tId) != Some(Format3) ==> NoSuffixCollision(Fresh(a))
    ensures PrepareSubject(a, tId) == PrepareSubject(b, tId)
    ensures PrepareSubjectByDate(a, tId) == PrepareSubjectByDate(b, tId)
  {
    FreshIgnoresListingOrder(a, b);
    ListingOrderIrrelevant(Fresh(a), Fresh(b), tId);
  }

  /** Deleting the merged days from two listings of the same files leaves
      the same files, still with distinct names. */
  lemma FreshIgnoresListingOrder(a: seq<RawFile>, b: seq<RawFile>)
    requires multiset(a) == multiset(b) && DistinctNames(a) && DistinctNames(b)
    ensures multiset(Fresh(a)) == multiset(Fresh(b))
    ensures DistinctNames(Fresh(a)) && DistinctNames(Fresh(b))
  {
    forall f ensures multiset(Fresh(a))[f] == multiset(Fresh(b))[f] && multiset(Fresh(a))[f] <= multiset(a)[f] {
      FreshKeeps(a, f);
      FreshKeeps(b, f);
    }
    DistinctNamesWithin(Fresh(a), a);
    DistinctNamesWithin(Fresh(b), b);
  }

  /** One subject, from its listing to its merged days, as the script
      prepares it. */
  function PrepareSubject(files: seq<RawFile>, tId: string): (o: Outcome)
    ensures o.NoReadableData? <==> forall g: Format :: !AnyMatch(Names(Fresh(files)), Pattern(g, tId))
    ensures o.Prepared? ==> AnyMatch(Names(Fresh(files)), Pattern(o.format, tId))
    ensures o.Prepared? ==> forall g: Format :: Rank(g) > Rank(o.format) ==> !AnyMatch(Names(Fresh(files)), Pattern(g, tId))
    ensures o.Prepared? ==> forall k :: 0 <= k < |o.days| ==> EndsWith(o.days[k].name, FullSuffix)
    ensures o.Prepared? ==> |o.days| > 0
    ensures o.Failed? ==> o.error.MissingDateField? || o.error == GroupIndexOverrun || o.error == EmptyDayList
  {
    ListingFormat(Fresh(files), tId);
    PrepareListing(Fresh(files), tId)
  }

  /** The format a listing is prepared in is the one detected for it. */
  lemma ListingFormat(listing: seq<RawFile>, tId: string)
    ensures PrepareListing(listing, tId).NoReadableData? <==> DetectFormat(Names(listing), tId).None?
    ensures PrepareListing(listing, tId).Prepared? ==>
              DetectFormat(Names(listing), tId) == Some(PrepareListing(listing, tId).format)
  {
    var fmt := DetectFormat(Names(listing), tId);
    if fmt.Some? {
      var r := DateFiles(Selected(listing, fmt.value, tId), fmt.value);
      if r.Success? {
        var g := GroupAsWritten(r.value);
      }
    }
  }

  /** One subject with the intended grouping. */
  function PrepareSubjectByDate(files: seq<RawFile>, tId: string): (o: Outcome)
    ensures o.NoReadableData? <==> forall g: Format :: !AnyMatch(Names(Fresh(files)), Pattern(g, tId))
    ensures o.Prepared? ==> forall k :: 0 <= k < |o.days| ==> EndsWith(o.days[k].name, FullSuffix)
    ensures o.Failed? ==> o.error.MissingDateField? || o.error == EmptyDayList
  {
    PrepareListingByDate(Fresh(files), tId)
  }

  /** What a successful preparation produced, in terms of the dated files:
      the dates were contiguous, there is one record per distinct date, in
      order of first appearance, the multi-part note appears exactly when
      two files share a date, and the records hold every sample of every
      file in order. */
  lemma PreparedDays(files: seq<RawFile>, tId: string)
    requires PrepareSubject(files, tId).Prepared?
    ensures var o := PrepareSubject(files, tId);
      var r := DateFiles(Selected(Fresh(files), o.format, tId), o.format);
      r.Success?
      && Contiguous(r.value)
      && o.days == MergeAll(GroupByDate(r.value))
      && |o.days| == |DistinctDates(r.value)|
      && (o.multiPart <==> exists a, b :: 0 <= a < b < |r.value| && r.value[a].date == r.value[b].date)
      && AllSamples(o.days) == Samples(r.value)
  {
    var o := PrepareListing(Fresh(files), tId);
    ListingPrepared(Fresh(files), tId);
    ContiguousDays(DateFiles(Selected(Fresh(files), o.format, tId), o.format).value);
  }

  /** A listing is prepared from contiguous dated files of the chosen
      format, grouped by date. */
  lemma ListingPrepared(listing: seq<RawFile>, tId: string)
    requires PrepareListing(listing, tId).Prepared?
    ensures var o := PrepareListing(listing, tId);
      var r := DateFiles(Selected(listing, o.format, tId), o.format);
      |Selected(listing, o.format, tId)| > 0
      && r.Success? && Contiguous(r.value)
      && o.days == MergeAll(GroupByDate(r.value))
      && (o.multiPart <==> |DistinctDates(r.value)| < |r.value|)
  {
    var fmt := DetectFormat(Names(listing), tId).value;
    GroupAsWrittenOutcome(DateFiles(Selected(listing, fmt, tId), fmt).value);
  }

  /** The merged days of contiguous dated files. */
  lemma ContiguousDays(dated: seq<DatedFile>)
    requires Contiguous(dated)
    ensures var days := MergeAll(GroupByDate(dated));
      |days| == |DistinctDates(dated)|
      && (|DistinctDates(dated)| < |dated| <==> exists a, b :: 0 <= a < b < |dated| && dated[a].date == dated[b].date)
      && AllSamples(days) == Samples(dated)
  {
    MultiPartNote(dated);
    MergeKeepsAllSamples(GroupByDate(dated));
    ContiguousRunsAreByDate(dated);
    GroupRunsAreMaximal(dated);
  }

  /** The merged days as files in the subject's directory. */
  function Written(o: Outcome): (files: seq<RawFile>)
    requires o.Prepared?
    ensures |files| == |o.days|
    ensures forall k :: 0 <= k < |files| ==> files[k].name == o.days[k].name
  {
    seq(|o.days|, k requires 0 <= k < |o.days| => RawFile(o.days[k].name, o.days[k].samples))
  }

  lemma {:induction false} FreshConcat(a: seq<RawFile>, b: seq<RawFile>)
    ensures Fresh(a + b) == Fresh(a) + Fresh(b)
    decreases |a|
  {
    if |a| == 0 {
      assert a + b == b;
    } else {
      assert (a + b)[1..] == a[1..] + b;
      FreshConcat(a[1..], b);
    }
  }

  lemma {:induction false} FreshDropsMerged(m: seq<RawFile>)
    requires forall k :: 0 <= k < |m| ==> EndsWith(m[k].name, FullSuffix)
    ensures Fresh(m) == []
    decreases |m|
  {
    if |m| > 0 {
      FreshDropsMerged(m[1..]);
    }
  }

  /** Running again over a directory that holds the merged days of a
      previous run gives the same outcome: the old merges are deleted
      first. */
  lemma RerunGivesSameOutcome(files: seq<RawFile>, tId: string)
    requires PrepareSubject(files, tId).Prepared?
    ensures PrepareSubject(files + Written(PrepareSubject(files, tId)), tId) == PrepareSubject(files, tId)
  {
    var o := PrepareSubject(files, tId);
    FreshIgnoresWritten(files, o);
    SubjectIsListing(files, tId);
    SubjectIsListing(files + Written(o), tId);
  }

  /** Adding the merged days of an outcome leaves the fresh files as they were. */
  lemma FreshIgnoresWritten(files: seq<RawFile>, o: Outcome)
    requires o.Prepared?
    requires forall k :: 0 <= k < |o.days| ==> EndsWith(o.days[k].name, FullSuffix)
    ensures Fresh(files + Written(o)) == Fresh(files)
  {
    var w := Written(o);
    FreshDropsMerged(w);
    FreshConcat(files, w);
    assert Fresh(files) + [] == Fresh(files);
  }

  lemma SubjectIsListing(files: seq<RawFile>, tId: string)
    ensures PrepareSubject(files, tId) == PrepareListing(Fresh(files), tId)
  {
  }
}
