/** Cleaning a day's pressure column and the means built from it. Values
    are kept only when strictly inside the band (lower, upper); a day whose
    cleaned column is empty has an undefined (NaN) mean, and undefined days
    are left out of the subject's average. */
module Pressure {
  import opened Results

  /** `df[df.Pressure > lower]` */
  function Above(xs: seq<real>, lo: real): (kept: seq<real>)
    decreases |xs|
  {
    if |xs| == 0 then [] else (if xs[0] > lo then [xs[0]] else []) + Above(xs[1..], lo)
  }

  /** `df[df.Pressure < upper]` */
  function Below(xs: seq<real>, hi: real): (kept: seq<real>)
    decreases |xs|
  {
    if |xs| == 0 then [] else (if xs[0] < hi then [xs[0]] else []) + Below(xs[1..], hi)
  }

  /** The values strictly inside the band, in their original order. */
  function BandFilter(xs: seq<real>, lo: real, hi: real): (kept: seq<real>)
    ensures |kept| <= |xs|
    ensures forall v :: v in kept <==> v in xs && lo < v < hi
    ensures forall v :: multiset(kept)[v] == if lo < v < hi then multiset(xs)[v] else 0
    decreases |xs|
  {
    if |xs| == 0 then []
    else
      assert xs == [xs[0]] + xs[1..];
      (if lo < xs[0] < hi then [xs[0]] else []) + BandFilter(xs[1..], lo, hi)
  }

  /** `a` is `b` with some elements deleted. */
  predicate Subsequence(a: seq<real>, b: seq<real>)
    decreases |b|
  {
    if |a| == 0 then true
    else if |b| == 0 then false
    else (a[0] == b[0] && Subsequence(a[1..], b[1..])) || Subsequence(a, b[1..])
  }

  /** The script's two successive filters are the band filter. */
  lemma {:induction false} TwoCutsAreBand(xs: seq<real>, lo: real, hi: real)
    ensures Below(Above(xs, lo), hi) == BandFilter(xs, lo, hi)
    decreases |xs|
  {
    if |xs| > 0 {
      TwoCutsAreBand(xs[1..], lo, hi);
      var a := Above(xs[1..], lo);
      if xs[0] > lo {
        assert Above(xs, lo) == [xs[0]] + a;
        assert ([xs[0]] + a)[0] == xs[0];
        assert ([xs[0]] + a)[1..] == a;
        assert Below([xs[0]] + a, hi) == (if xs[0] < hi then [xs[0]] else []) + Below(a, hi);
      } else {
        assert Above(xs, lo) == a;
      }
    }
  }

  /** Cleaning keeps the order of the values it keeps. */
  lemma {:induction false} BandFilterIsSubsequence(xs: seq<real>, lo: real, hi: real)
    ensures Subsequence(BandFilter(xs, lo, hi), xs)
    decreases |xs|
  {
    if |xs| > 0 {
      BandFilterIsSubsequence(xs[1..], lo, hi);
      var rest := BandFilter(xs[1..], lo, hi);
      if lo < xs[0] < hi {
        assert ([xs[0]] + rest)[1..] == rest;
      } else if |rest| > 0 {
        assert BandFilter(xs, lo, hi) == rest;
      }
    }
  }

  /** Cleaning a cleaned column changes nothing. */
  lemma {:induction false} BandFilterIdempotent(xs: seq<real>, lo: real, hi: real)
    ensures BandFilter(BandFilter(xs, lo, hi), lo, hi) == BandFilter(xs, lo, hi)
    decreases |xs|
  {
    if |xs| > 0 {
      BandFilterIdempotent(xs[1..], lo, hi);
      var rest := BandFilter(xs[1..], lo, hi);
      if lo < xs[0] < hi {
        assert BandFilter(xs, lo, hi) == [xs[0]] + rest;
        assert ([xs[0]] + rest)[0] == xs[0];
        assert ([xs[0]] + rest)[1..] == rest;
      } else {
        assert BandFilter(xs, lo, hi) == rest;
      }
    }
  }

  function Sum(xs: seq<real>): real
    decreases |xs|
  {
    if |xs| == 0 then 0.0 else xs[0] + Sum(xs[1..])
  }

  /** `v` times the number of values is their sum. */
  predicate IsMeanOf(v: real, xs: seq<real>) {
    v * (|xs| as real) == Sum(xs)
  }

  /** The mean of a day's cleaned values; `None` stands for pandas' NaN. */
  function DayMean(kept: seq<real>): (m: Option<real>)
    ensures m.None? <==> |kept| == 0
    ensures m.Some? ==> IsMeanOf(m.value, kept)
  {
    if |kept| == 0 then None else Some(Sum(kept) / (|kept| as real))
  }

  /** The standard deviation (`ddof=1`) is NaN below two values. */
  predicate SdDefined(kept: seq<real>) {
    |kept| >= 2
  }

  /** The IQR is the string 'NaN' exactly for an empty cleaned column. */
  predicate IqrSentinel(kept: seq<real>) {
    |kept| == 0
  }

  lemma {:induction false} SumBounds(xs: seq<real>, lo: real, hi: real)
    requires forall i :: 0 <= i < |xs| ==> lo < xs[i] < hi
    ensures |xs| > 0 ==> lo * (|xs| as real) < Sum(xs) < hi * (|xs| as real)
    decreases |xs|
  {
    if |xs| > 0 {
      SumBounds(xs[1..], lo, hi);
      assert lo * (|xs| as real) == lo + lo * (|xs[1..]| as real);
      assert hi * (|xs| as real) == hi + hi * (|xs[1..]| as real);
    }
  }

  lemma MeanBetween(xs: seq<real>, lo: real, hi: real)
    requires forall i :: 0 <= i < |xs| ==> lo < xs[i] < hi
    ensures DayMean(xs).Some? ==> lo < DayMean(xs).value < hi
  {
    if |xs| > 0 {
      SumBounds(xs, lo, hi);
      var n := |xs| as real;
      var m := DayMean(xs).value;
      assert m * n == Sum(xs);
    }
  }

  /** A defined day mean lies strictly inside the band. */
  lemma DayMeanInBand(xs: seq<real>, lo: real, hi: real)
    ensures DayMean(BandFilter(xs, lo, hi)).Some? ==> lo < DayMean(BandFilter(xs, lo, hi)).value < hi
  {
    var kept := BandFilter(xs, lo, hi);
    assert forall i :: 0 <= i < |kept| ==> kept[i] in kept;
    MeanBetween(kept, lo, hi);
  }

  lemma BandEmpty(xs: seq<real>, lo: real, hi: real)
    ensures |BandFilter(xs, lo, hi)| == 0 <==> forall k :: 0 <= k < |xs| ==> !(lo < xs[k] < hi)
  {
    var kept := BandFilter(xs, lo, hi);
    if |kept| > 0 {
      assert kept[0] in kept;
    } else {
      assert forall k :: 0 <= k < |xs| ==> xs[k] in xs;
    }
  }

  predicate InBand(x: real, lo: real, hi: real) {
    lo < x < hi
  }

  /** Some reading of the day lies inside the band. */
  predicate OneInBand(xs: seq<real>, lo: real, hi: real) {
    exists i :: 0 <= i < |xs| && InBand(xs[i], lo, hi)
  }

  /** Two readings of the day lie inside the band. */
  predicate TwoInBand(xs: seq<real>, lo: real, hi: real) {
    exists i, j :: 0 <= i < j < |xs| && InBand(xs[i], lo, hi) && InBand(xs[j], lo, hi)
  }

  /** The cleaned column has two or more values exactly when two readings
      of the day lie inside the band. */
  lemma {:induction false} BandAtLeastTwo(xs: seq<real>, lo: real, hi: real)
    ensures |BandFilter(xs, lo, hi)| >= 2 <==> TwoInBand(xs, lo, hi)
    decreases |xs|
  {
    if |xs| > 0 {
      BandAtLeastTwo(xs[1..], lo, hi);
      BandAtLeastOne(xs[1..], lo, hi);
      BandCons(xs, lo, hi);
      TwoInBandCons(xs, lo, hi);
    }
  }

  lemma BandCons(xs: seq<real>, lo: real, hi: real)
    requires |xs| > 0
    ensures |BandFilter(xs, lo, hi)| == (if InBand(xs[0], lo, hi) then 1 else 0) + |BandFilter(xs[1..], lo, hi)|
  {
  }

  lemma BandAtLeastOne(xs: seq<real>, lo: real, hi: real)
    ensures |BandFilter(xs, lo, hi)| >= 1 <==> OneInBand(xs, lo, hi)
  {
    BandEmpty(xs, lo, hi);
  }

  lemma TwoInBandCons(xs: seq<real>, lo: real, hi: real)
    requires |xs| > 0
    ensures TwoInBand(xs, lo, hi) <==>
            (InBand(xs[0], lo, hi) && OneInBand(xs[1..], lo, hi)) || TwoInBand(xs[1..], lo, hi)
  {
    var rest := xs[1..];
    if TwoInBand(xs, lo, hi) {
      var i, j :| 0 <= i < j < |xs| && InBand(xs[i], lo, hi) && InBand(xs[j], lo, hi);
      assert rest[j - 1] == xs[j];
      if i > 0 {
        assert rest[i - 1] == xs[i];
      }
    }
    if InBand(xs[0], lo, hi) && OneInBand(rest, lo, hi) {
      var j :| 0 <= j < |rest| && InBand(rest[j], lo, hi);
      assert xs[j + 1] == rest[j];
    }
    if TwoInBand(rest, lo, hi) {
      var i, j :| 0 <= i < j < |rest| && InBand(rest[i], lo, hi) && InBand(rest[j], lo, hi);
      assert xs[i + 1] == rest[i] && xs[j + 1] == rest[j];
    }
  }

  /** What a day contributes to the subject: its mean, and whether its
      standard deviation is defined and its IQR is the 'NaN' sentinel. */
  datatype DayStats = DayStats(mean: Option<real>, sdDefined: bool, iqrIsNaN: bool)

  /** A day's pressure column after cleaning. The mean is undefined, and
      the IQR the sentinel, exactly when no value lies inside the band. */
  function DaySummary(xs: seq<real>, lo: real, hi: real): (s: DayStats)
    ensures s.mean.None? <==> forall k :: 0 <= k < |xs| ==> !(lo < xs[k] < hi)
    ensures s.iqrIsNaN <==> s.mean.None?
    ensures s.sdDefined <==> TwoInBand(xs, lo, hi)
    ensures s.sdDefined ==> s.mean.Some?
    ensures s.mean.Some? ==> lo < s.mean.value < hi
    ensures s.mean.Some? ==> IsMeanOf(s.mean.value, BandFilter(xs, lo, hi))
  {
    var kept := BandFilter(xs, lo, hi);
    DayMeanInBand(xs, lo, hi);
    BandEmpty(xs, lo, hi);
    BandAtLeastTwo(xs, lo, hi);
    DayStats(DayMean(kept), SdDefined(kept), IqrSentinel(kept))
  }

  /** The defined values among the day values, in order. */
  function Defined(ms: seq<Option<real>>): (vs: seq<real>)
    ensures |vs| == 0 <==> forall i :: 0 <= i < |ms| ==> ms[i].None?
    decreases |ms|
  {
    if |ms| == 0 then []
    else
      assert ms == [ms[0]] + ms[1..];
      (if ms[0].Some? then [ms[0].value] else []) + Defined(ms[1..])
  }

  /** The list holds exactly the values of the defined days. */
  lemma {:induction false} DefinedMembers(ms: seq<Option<real>>, v: real)
    ensures v in Defined(ms) <==> Some(v) in ms
    decreases |ms|
  {
    if |ms| > 0 {
      DefinedMembers(ms[1..], v);
      assert ms == [ms[0]] + ms[1..];
    }
  }

  /** The subject's value: the mean of the defined day values, or 'NaN'
      when no day contributed. */
  function SubjectMean(ms: seq<Option<real>>): (m: Option<real>)
    ensures m.None? <==> forall i :: 0 <= i < |ms| ==> ms[i].None?
    ensures m.Some? ==> IsMeanOf(m.value, Defined(ms))
  {
    DayMean(Defined(ms))
  }

  lemma DefinedSkipsUndefined(ms: seq<Option<real>>, i: nat)
    requires i < |ms| && ms[i].None?
    ensures Defined(ms[..i] + ms[i + 1..]) == Defined(ms)
    decreases i
  {
    if i > 0 {
      DefinedSkipsUndefined(ms[1..], i - 1);
      assert (ms[..i] + ms[i + 1..])[1..] == ms[1..][..i - 1] + ms[1..][i..];
    } else {
      assert ms[..i] + ms[i + 1..] == ms[1..];
    }
  }

  /** An undefined day does not change the subject's value. */
  lemma SubjectMeanIgnoresUndefined(ms: seq<Option<real>>, i: nat)
    requires i < |ms| && ms[i].None?
    ensures SubjectMean(ms[..i] + ms[i + 1..]) == SubjectMean(ms)
  {
    DefinedSkipsUndefined(ms, i);
  }

  /** Days whose values lie in a band give a subject value in that band. */
  lemma SubjectMeanBetween(ms: seq<Option<real>>, lo: real, hi: real)
    requires forall i :: 0 <= i < |ms| && ms[i].Some? ==> lo < ms[i].value < hi
    ensures SubjectMean(ms).Some? ==> lo < SubjectMean(ms).value < hi
  {
    var vs := Defined(ms);
    forall i | 0 <= i < |vs|
      ensures lo < vs[i] < hi
    {
      DefinedMembers(ms, vs[i]);
      assert vs[i] in vs;
      var j :| 0 <= j < |ms| && ms[j] == Some(vs[i]);
    }
    MeanBetween(vs, lo, hi);
  }
}
