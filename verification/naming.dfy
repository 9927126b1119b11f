/** The three AcuWand file-naming conventions: recognising which one a
    subject's files follow, and reading the date token out of a name.

      Format 1  00001_0005_18-01-2079_01-22-33_03679.csv
      Format 2  00001_0005___01-18-79___01-22___7.0_mins.csv
      Format 3  BPCR01-0512-001_T7_1-18-79.csv  (optionally _part1 etc.)  */
module Naming {
  import opened Results
  import opened Strings
  import opened Glob

  datatype Format = Format1 | Format2 | Format3

  /** A raw recording: its basename and the first column of its rows. */
  datatype RawFile = RawFile(name: string, samples: seq<real>)

  const Format1Pattern: string := "*_*_*-*-*_*_*.csv"
  const Format2Pattern: string := "*_*___*-*-*___*___*_*.csv"

  /** `tId` is the cohort directory name, such as "T7". */
  function Format3Pattern(tId: string): string {
    "*" + tId + "_*-*-*.csv"
  }

  function Pattern(f: Format, tId: string): string {
    match f
    case Format1 => Format1Pattern
    case Format2 => Format2Pattern
    case Format3 => Format3Pattern(tId)
  }

  /** Precedence of the formats: the most specific pattern is tried first. */
  function Rank(f: Format): nat {
    match f
    case Format1 => 1
    case Format2 => 2
    case Format3 => 3
  }

  function Names(files: seq<RawFile>): (names: seq<string>)
    ensures |names| == |files|
    ensures forall i :: 0 <= i < |files| ==> names[i] == files[i].name
  {
    seq(|files|, i requires 0 <= i < |files| => files[i].name)
  }

  predicate AnyMatch(names: seq<string>, p: string) {
    exists i :: 0 <= i < |names| && GlobMatch(p, names[i])
  }

  /** The format a subject's directory is read in, or `None` when no name
      fits any convention and the subject is skipped. */
  function DetectFormat(names: seq<string>, tId: string): (f: Option<Format>)
    ensures f.Some? ==> AnyMatch(names, Pattern(f.value, tId))
    ensures f.Some? ==> forall g: Format :: Rank(g) > Rank(f.value) ==> !AnyMatch(names, Pattern(g, tId))
    ensures f.None? <==> forall g: Format :: !AnyMatch(names, Pattern(g, tId))
  {
    if AnyMatch(names, Format3Pattern(tId)) then Some(Format3)
    else if AnyMatch(names, Format2Pattern) then Some(Format2)
    else if AnyMatch(names, Format1Pattern) then Some(Format1)
    else None
  }

  /** The files a glob with pattern `p` returns, in listing order. */
  function Matching(files: seq<RawFile>, p: string): seq<RawFile> {
    if |files| == 0 then []
    else (if GlobMatch(p, files[0].name) then [files[0]] else []) + Matching(files[1..], p)
  }

  /** The glob keeps exactly the files whose names match, each as often as
      it is listed. */
  lemma {:induction false} MatchingKeeps(files: seq<RawFile>, p: string, f: RawFile)
    ensures multiset(Matching(files, p))[f] == if GlobMatch(p, f.name) then multiset(files)[f] else 0
    ensures f in Matching(files, p) <==> f in files && GlobMatch(p, f.name)
    decreases |files|
  {
    if |files| > 0 {
      MatchingKeeps(files[1..], p, f);
      assert files == [files[0]] + files[1..];
    }
  }

  /** Listing the same files again, in any order, keeps the same matches. */
  lemma MatchingSameFiles(a: seq<RawFile>, b: seq<RawFile>, p: string)
    requires multiset(a) == multiset(b)
    ensures multiset(Matching(a, p)) == multiset(Matching(b, p))
  {
    forall f ensures multiset(Matching(a, p))[f] == multiset(Matching(b, p))[f] {
      MatchingKeeps(a, p, f);
      MatchingKeeps(b, p, f);
    }
  }

  /** A pattern that matches a file of `a` matches one of any listing
      holding all of `a`'s files. */
  lemma AnyMatchWithin(a: seq<RawFile>, b: seq<RawFile>, p: string)
    requires forall f :: f in a ==> f in b
    ensures AnyMatch(Names(a), p) ==> AnyMatch(Names(b), p)
  {
    if AnyMatch(Names(a), p) {
      var i :| 0 <= i < |Names(a)| && GlobMatch(p, Names(a)[i]);
      assert a[i] in a;
      var j :| 0 <= j < |b| && b[j] == a[i];
      assert GlobMatch(p, Names(b)[j]);
    }
  }

  /** The format depends only on which files are listed, not on their
      order or repetition. */
  lemma DetectFormatSameFiles(a: seq<RawFile>, b: seq<RawFile>, tId: string)
    requires forall f :: f in a <==> f in b
    ensures DetectFormat(Names(a), tId) == DetectFormat(Names(b), tId)
  {
    forall g: Format ensures AnyMatch(Names(a), Pattern(g, tId)) <==> AnyMatch(Names(b), Pattern(g, tId)) {
      AnyMatchWithin(a, b, Pattern(g, tId));
      AnyMatchWithin(b, a, Pattern(g, tId));
    }
    assert Pattern(Format3, tId) == Format3Pattern(tId);
    assert Pattern(Format2, tId) == Format2Pattern;
    assert Pattern(Format1, tId) == Format1Pattern;
  }

  /** Every Format 2 name also fits the Format 1 pattern, so Format 2 has
      to be tried first or it would never be chosen. */
  lemma Format2NamesMatchFormat1(s: string)
    requires GlobMatch(Format2Pattern, s)
    ensures GlobMatch(Format1Pattern, s)
  {
    var a, b, c := "*_*_", "-*-*_", "_*.csv";
    PatternPieces();
    CoversStar("__*");
    CoversStar("__*___*");
    CoversConcat(a, a, "*", "__*");
    CoversConcat(a + "*", a + "__*", b, b);
    CoversConcat(a + "*" + b, a + "__*" + b, "*", "__*___*");
    CoversConcat(a + "*" + b + "*", a + "__*" + b + "__*___*", c, c);
  }

  /** The two patterns share their pieces; Format 2 has more between them. */
  lemma PatternPieces()
    ensures Format1Pattern == "*_*_" + "*" + "-*-*_" + "*" + "_*.csv"
    ensures Format2Pattern == "*_*_" + "__*" + "-*-*_" + "__*___*" + "_*.csv"
  {
  }

  /** Hence a subject whose listing holds a Format 2 name never lacks a
      Format 1 match either. */
  lemma Format2SubjectAlsoFormat1(names: seq<string>)
    requires AnyMatch(names, Format2Pattern)
    ensures AnyMatch(names, Format1Pattern)
  {
    var i :| 0 <= i < |names| && GlobMatch(Format2Pattern, names[i]);
    Format2NamesMatchFormat1(names[i]);
  }

  /** The name with every ".csv" removed (`name.replace(".csv", "")`). */
  function Stem(name: string): string {
    RemoveAll(name, ".csv")
  }

  /** A stem without a dot is the stem of itself plus ".csv". */
  lemma StemOfCsv(stem: string)
    requires '.' !in stem
    ensures Stem(stem + ".csv") == stem
  {
    RemoveAllKeepsHead(stem, ".csv", ".csv");
    assert RemoveAll(".csv", ".csv") == [];
  }

  /** Which `_`-separated field of the stem holds the date. */
  function DateField(f: Format): nat {
    match f
    case Format1 => 2
    case Format2 => 4
    case Format3 => 2
  }

  /** `stem.split('_')[k]`; `None` where Python raises IndexError. */
  function DateToken(name: string, f: Format): (d: Option<string>)
    ensures d.Some? ==> '_' !in d.value
    ensures d.Some? <==> Count(Stem(name), '_') >= DateField(f)
  {
    var fields := Split(Stem(name), '_');
    if DateField(f) < |fields| then Some(fields[DateField(f)]) else None
  }

  /** Format 1 and Format 2 names always have their date field; a Format 3
      name need not (its pattern guarantees only one `_`). */
  lemma DateTokenPresent(name: string, f: Format, tId: string)
    requires f != Format3 && GlobMatch(Pattern(f, tId), name)
    ensures DateToken(name, f).Some?
  {
    PatternUnderscores(f, tId);
    StemKeepsUnderscores(Pattern(f, tId), name);
  }

  /** A Format 3 name `<subject>_<cohort>_<date><tail>.csv` whose tail is
      empty or starts a new field (`_part2`) has `<date>` as its date
      token; anything glued to the date without `_` becomes part of it. */
  lemma Format3DateToken(subject: string, cohort: string, date: string, tail: string)
    requires '_' !in subject && '_' !in cohort && '_' !in date
    requires '.' !in subject && '.' !in cohort && '.' !in date && '.' !in tail
    requires tail == [] || tail[0] == '_'
    ensures DateToken(subject + ['_'] + (cohort + ['_'] + (date + tail)) + ".csv", Format3) == Some(date)
  {
    StemOfCsv(subject + ['_'] + (cohort + ['_'] + (date + tail)));
    SplitTwoFields(subject, cohort, date + tail);
    FirstFieldOf(date, tail);
  }

  lemma SplitTwoFields(a: string, b: string, rest: string)
    requires '_' !in a && '_' !in b
    ensures Split(a + ['_'] + (b + ['_'] + rest), '_') == [a, b] + Split(rest, '_')
  {
    SplitAfterField(a, b + ['_'] + rest, '_');
    SplitAfterField(b, rest, '_');
  }

  lemma FirstFieldOf(field: string, tail: string)
    requires '_' !in field
    requires tail == [] || tail[0] == '_'
    ensures Split(field + tail, '_')[0] == field
  {
    if tail == [] {
      assert field + tail == field;
      SplitNoSep(field, '_');
    } else {
      assert field + tail == field + ['_'] + tail[1..];
      SplitAfterField(field, tail[1..], '_');
    }
  }

  lemma StemKeepsUnderscores(p: string, name: string)
    requires GlobMatch(p, name)
    ensures Count(Stem(name), '_') >= Count(p, '_')
  {
    GlobKeepsLiterals(p, name, '_');
    RemoveAllKeepsCount(name, ".csv", '_');
  }

  lemma PatternUnderscores(f: Format, tId: string)
    requires f != Format3
    ensures Count(Pattern(f, tId), '_') >= DateField(f)
  {
    if f == Format1 {
      Format1Underscores();
    } else {
      Format2Underscores();
    }
  }

  lemma Format1Underscores()
    ensures Count(Format1Pattern, '_') >= 2
  {
    Format1Head();
    CountAtLeastPrefix(Format1Pattern, "*_*_", '_');
    HeadUnderscores("*_");
  }

  lemma Format1Head()
    ensures StartsWith(Format1Pattern, "*_*_")
  {
  }

  lemma Format2Underscores()
    ensures Count(Format2Pattern, '_') >= 4
  {
    Format2Head();
    CountAtLeastPrefix(Format2Pattern, "*_*___", '_');
    HeadUnderscores("*___");
  }

  lemma Format2Head()
    ensures StartsWith(Format2Pattern, "*_*___")
  {
  }

  /** `*_` followed by `t` has one more `_` than `t`. */
  lemma HeadUnderscores(t: string)
    ensures Count("*_" + t, '_') == Count(t, '_') + 1
  {
    assert "*_" + t == ['*'] + (['_'] + t);
  }
}
