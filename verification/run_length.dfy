/** Treatment time of one merged day. The script marks each row that equals
    the next one, collects the blocks of marked rows as (start, count)
    entries, and removes long blocks of a near-zero reading from the row
    count before converting rows to seconds (10 rows per second). */
module RunLength {

  /** One `[pos, counter]` entry of the list of repeats. */
  datatype Entry = Entry(start: int, count: int)

  /** The scan's variables `counter` and `pos`, and the entries so far. */
  datatype ScanState = ScanState(counter: int, pos: int, entries: seq<Entry>)

  /** Rows per second of a recording. */
  const RowsPerSecond: int := 10

  /** Repeats beyond this many rows (60 seconds) are a long run. */
  const LongRun: int := 600

  /** `x.eq(x.shift(-1))`: a row is marked when it equals the next row; the
      last row is compared with a missing value and is never marked. */
  function EqualsNext(xs: seq<real>): (b: seq<bool>)
    ensures |b| == |xs|
  {
    seq(|xs|, i requires 0 <= i < |xs| => i + 1 < |xs| && xs[i] == xs[i + 1])
  }

  /** One pass of the loop over the marks, at index `idx`. */
  function Step(st: ScanState, idx: int, val: bool): ScanState {
    if val && st.pos == -1 then ScanState(st.counter + 1, idx, st.entries)
    else if val then ScanState(st.counter + 1, st.pos, st.entries)
    else if st.pos != -1 then ScanState(0, -1, st.entries + [Entry(st.pos, st.counter)])
    else st
  }

  /** The loop's state after the marks `b`. */
  function Scan(b: seq<bool>): ScanState
    decreases |b|
  {
    if |b| == 0 then ScanState(0, -1, [])
    else Step(Scan(b[..|b| - 1]), |b| - 1, b[|b| - 1])
  }

  /** The loop's state feeds the append after it, taken when a block is
      still open at the end. */
  predicate Trailing(b: seq<bool>) {
    Scan(b).counter > 0
  }

  /** The list of repeats: the loop, then the trailing append. */
  function Entries(b: seq<bool>): seq<Entry> {
    var st := Scan(b);
    if Trailing(b) then st.entries + [Entry(st.pos, st.counter)] else st.entries
  }

  /** `e` covers a block of marks that cannot be extended either way. */
  predicate MaximalBlock(b: seq<bool>, e: Entry) {
    0 <= e.start && 0 < e.count && e.start + e.count <= |b|
    && (forall k :: e.start <= k < e.start + e.count ==> b[k])
    && (e.start == 0 || !b[e.start - 1])
    && (e.start + e.count == |b| || !b[e.start + e.count])
  }

  /** Entries come in increasing order with a gap between any two. */
  predicate Ordered(es: seq<Entry>) {
    forall i, j :: 0 <= i < j < |es| ==> es[i].start + es[i].count < es[j].start
  }

  ghost predicate InSome(es: seq<Entry>, k: int) {
    exists i :: 0 <= i < |es| && es[i].start <= k < es[i].start + es[i].count
  }

  ghost predicate CoveredBelow(b: seq<bool>, es: seq<Entry>, n: int)
    requires n <= |b|
  {
    forall k :: 0 <= k < n && b[k] ==> InSome(es, k)
  }

  /** `es` lists exactly the maximal blocks of `b`, in order. */
  ghost predicate Decomposes(b: seq<bool>, es: seq<Entry>) {
    (forall i :: 0 <= i < |es| ==> MaximalBlock(b, es[i]))
    && Ordered(es)
    && CoveredBelow(b, es, |b|)
  }

  /** What the loop knows after the first `n` marks. */
  ghost predicate Inv(b: seq<bool>, n: int, st: ScanState)
    requires 0 <= n <= |b|
  {
    (forall i :: 0 <= i < |st.entries| ==>
       MaximalBlock(b, st.entries[i]) && st.entries[i].start + st.entries[i].count < n)
    && Ordered(st.entries)
    && (if st.pos == -1 then st.counter == 0 && CoveredBelow(b, st.entries, n)
        else
          0 <= st.pos && 0 < st.counter && st.pos + st.counter == n
          && (forall k :: st.pos <= k < n ==> b[k])
          && (st.pos == 0 || !b[st.pos - 1])
          && (forall i :: 0 <= i < |st.entries| ==> st.entries[i].start + st.entries[i].count < st.pos)
          && CoveredBelow(b, st.entries, st.pos))
  }

  lemma StepOpens(b: seq<bool>, n: int, st: ScanState)
    requires 0 <= n < |b| && Inv(b, n, st) && b[n] && st.pos == -1
    ensures Inv(b, n + 1, Step(st, n, b[n]))
  {
  }

  /** Closing the open block after the first `n` marks, when the next mark
      is clear or there is none, keeps the entries maximal and ordered. */
  lemma CloseBlock(b: seq<bool>, n: int, st: ScanState)
    requires 0 <= n <= |b| && Inv(b, n, st) && st.pos != -1 && (n == |b| || !b[n])
    ensures var es := st.entries + [Entry(st.pos, st.counter)];
      (forall i :: 0 <= i < |es| ==> MaximalBlock(b, es[i]) && es[i].start + es[i].count <= n)
      && Ordered(es) && CoveredBelow(b, es, n)
  {
    var e := Entry(st.pos, st.counter);
    var es := st.entries + [e];
    assert MaximalBlock(b, e);
    forall i | 0 <= i < |es|
      ensures MaximalBlock(b, es[i]) && es[i].start + es[i].count <= n
    {
      if i < |st.entries| {
        assert es[i] == st.entries[i];
      }
    }
    forall i, j | 0 <= i < j < |es|
      ensures es[i].start + es[i].count < es[j].start
    {
      assert es[i] == st.entries[i];
      if j < |st.entries| {
        assert es[j] == st.entries[j];
      }
    }
    forall k | 0 <= k < n && b[k]
      ensures InSome(es, k)
    {
      if k < st.pos {
        var i :| 0 <= i < |st.entries| && st.entries[i].start <= k < st.entries[i].start + st.entries[i].count;
        assert es[i] == st.entries[i];
      } else {
        assert es[|es| - 1] == e;
      }
    }
  }

  lemma StepCloses(b: seq<bool>, n: int, st: ScanState)
    requires 0 <= n < |b| && Inv(b, n, st) && !b[n] && st.pos != -1
    ensures Inv(b, n + 1, Step(st, n, b[n]))
  {
    CloseBlock(b, n, st);
  }

  lemma StepKeepsInv(b: seq<bool>, n: int, st: ScanState)
    requires 0 <= n < |b| && Inv(b, n, st)
    ensures Inv(b, n + 1, Step(st, n, b[n]))
  {
    if b[n] && st.pos == -1 {
      StepOpens(b, n, st);
    } else if !b[n] && st.pos != -1 {
      StepCloses(b, n, st);
    }
  }

  lemma {:induction false} ScanKeepsInv(b: seq<bool>, n: int)
    requires 0 <= n <= |b|
    ensures Inv(b, n, Scan(b[..n]))
    decreases n
  {
    if n > 0 {
      ScanKeepsInv(b, n - 1);
      assert b[..n][..n - 1] == b[..n - 1];
      StepKeepsInv(b, n - 1, Scan(b[..n - 1]));
    }
  }

  /** The loop with its trailing append lists exactly the maximal blocks of
      marks, in order; the append is taken exactly when the last mark is
      set. */
  lemma EntriesDecompose(b: seq<bool>)
    ensures Decomposes(b, Entries(b))
    ensures Trailing(b) <==> |b| > 0 && b[|b| - 1]
  {
    ScanKeepsInv(b, |b|);
    assert b[..|b|] == b;
    if Scan(b).pos != -1 {
      CloseBlock(b, |b|, Scan(b));
    }
  }

  /** The marks of a day end unmarked, so the append after the loop is
      never taken. */
  lemma TrailingAppendUnreachable(xs: seq<real>)
    ensures !Trailing(EqualsNext(xs))
  {
    EntriesDecompose(EqualsNext(xs));
  }

  /** The rows from `s` on, `len` of them, hold one value, and the rows on
      either side differ from it. */
  predicate RunOfEqual(xs: seq<real>, s: int, len: int) {
    0 <= s && 1 <= len && s + len <= |xs|
    && (forall k :: s <= k < s + len ==> xs[k] == xs[s])
    && (s == 0 || xs[s - 1] != xs[s])
    && (s + len == |xs| || xs[s + len] != xs[s])
  }

  /** A maximal block of marks is a maximal run of equal rows one row longer:
      an entry counts the repeats after the first row. */
  lemma BlockIsRun(xs: seq<real>, e: Entry)
    ensures MaximalBlock(EqualsNext(xs), e) <==> 1 <= e.count && RunOfEqual(xs, e.start, e.count + 1)
  {
    var b := EqualsNext(xs);
    if MaximalBlock(b, e) {
      assert !b[|b| - 1];
      assert e.start + e.count < |xs|;
      var s := e.start;
      forall k | s <= k < s + e.count + 1
        ensures xs[k] == xs[s]
      {
        var j := s;
        while j < k
          invariant s <= j <= k
          invariant xs[j] == xs[s]
        {
          assert b[j];
          j := j + 1;
        }
      }
      if s > 0 {
        assert !b[s - 1];
      }
      if s + e.count + 1 < |xs| {
        assert !b[s + e.count];
        assert xs[s + e.count] == xs[s];
      }
    }
    if 1 <= e.count && RunOfEqual(xs, e.start, e.count + 1) {
      var s := e.start;
      forall k | s <= k < s + e.count
        ensures b[k]
      {
        assert xs[k] == xs[s] && xs[k + 1] == xs[s];
      }
      if s + e.count < |b| {
        assert xs[s + e.count] == xs[s];
      }
    }
  }

  /** Two maximal blocks sharing a mark are the same block. */
  lemma MaximalBlocksMeet(b: seq<bool>, e: Entry, f: Entry, k: int)
    requires MaximalBlock(b, e) && MaximalBlock(b, f)
    requires e.start <= k < e.start + e.count && f.start <= k < f.start + f.count
    ensures e == f
  {
  }

  /** Every run of two or more equal rows yields exactly one entry, at its
      first row, counting one less than its length. */
  lemma RunYieldsOneEntry(xs: seq<real>, s: int, len: int)
    requires 2 <= len && RunOfEqual(xs, s, len)
    ensures Entry(s, len - 1) in Entries(EqualsNext(xs))
    ensures forall i :: 0 <= i < |Entries(EqualsNext(xs))| && Entries(EqualsNext(xs))[i].start == s ==>
              Entries(EqualsNext(xs))[i] == Entry(s, len - 1)
  {
    var b := EqualsNext(xs);
    var es := Entries(b);
    var e := Entry(s, len - 1);
    EntriesDecompose(b);
    BlockIsRun(xs, e);
    assert b[s];
    var i :| 0 <= i < |es| && es[i].start <= s < es[i].start + es[i].count;
    MaximalBlocksMeet(b, es[i], e, s);
    forall j | 0 <= j < |es| && es[j].start == s
      ensures es[j] == e
    {
      MaximalBlocksMeet(b, es[j], e, s);
    }
  }

  /** Every entry is the count of repeats of a maximal run of equal rows. */
  lemma EntryIsRun(xs: seq<real>, i: int)
    requires 0 <= i < |Entries(EqualsNext(xs))|
    ensures RunOfEqual(xs, Entries(EqualsNext(xs))[i].start, Entries(EqualsNext(xs))[i].count + 1)
  {
    EntriesDecompose(EqualsNext(xs));
    BlockIsRun(xs, Entries(EqualsNext(xs))[i]);
  }

  /** A long run of an in-band value: these are removed from the time. */
  predicate Idle(xs: seq<real>, e: Entry, lower: real, upper: real) {
    0 <= e.start < |xs| && e.count > LongRun && lower <= xs[e.start] <= upper
  }

  /** Rows removed as written: the entry's count. */
  function RemovedAsWritten(xs: seq<real>, es: seq<Entry>, lower: real, upper: real): int
    decreases |es|
  {
    if |es| == 0 then 0
    else RemovedAsWritten(xs, es[..|es| - 1], lower, upper)
         + (if Idle(xs, es[|es| - 1], lower, upper) then es[|es| - 1].count else 0)
  }

  /** `net_tx_rows` as the script computes it. */
  function NetRowsAsWritten(xs: seq<real>, lower: real, upper: real): int {
    |xs| - RemovedAsWritten(xs, Entries(EqualsNext(xs)), lower, upper)
  }

  /** The length of the run an entry stands for. */
  function RunLength(e: Entry): int {
    e.count + 1
  }

  /** A run of an in-band value lasting more than 60 seconds. */
  predicate IdleRun(xs: seq<real>, e: Entry, lower: real, upper: real) {
    0 <= e.start < |xs| && RunLength(e) > LongRun && lower <= xs[e.start] <= upper
  }

  /** Rows removed when the whole run is taken out. */
  function Removed(xs: seq<real>, es: seq<Entry>, lower: real, upper: real): int
    decreases |es|
  {
    if |es| == 0 then 0
    else Removed(xs, es[..|es| - 1], lower, upper)
         + (if IdleRun(xs, es[|es| - 1], lower, upper) then RunLength(es[|es| - 1]) else 0)
  }

  /** Treatment rows with every idle run of more than 60 seconds removed. */
  function NetRows(xs: seq<real>, lower: real, upper: real): int {
    |xs| - Removed(xs, Entries(EqualsNext(xs)), lower, upper)
  }

  /** The entries' runs, read as row spans `[start, start + count]`, fit
      in the day one after another. */
  lemma {:induction false} SpansFit(b: seq<bool>, es: seq<Entry>, bound: int)
    requires Ordered(es)
    requires forall i :: 0 <= i < |es| ==> 0 <= es[i].start && 0 <= es[i].count && es[i].start + es[i].count < bound
    ensures SpanTotal(es) <= (if |es| == 0 then 0 else es[|es| - 1].start + es[|es| - 1].count + 1)
    ensures 0 <= SpanTotal(es) <= (if bound < 0 then 0 else bound)
    decreases |es|
  {
    if |es| > 0 {
      var init := es[..|es| - 1];
      assert forall i :: 0 <= i < |init| ==> init[i] == es[i];
      SpansFit(b, init, bound);
      if |init| > 0 {
        assert init[|init| - 1].start + init[|init| - 1].count < es[|es| - 1].start;
      }
    }
  }

  /** Rows covered by the entries' runs, all of them. */
  function SpanTotal(es: seq<Entry>): int
    decreases |es|
  {
    if |es| == 0 then 0 else SpanTotal(es[..|es| - 1]) + es[|es| - 1].count + 1
  }

  lemma {:induction false} RemovedWithinSpans(xs: seq<real>, es: seq<Entry>, lower: real, upper: real)
    requires forall i :: 0 <= i < |es| ==> 0 <= es[i].count
    ensures 0 <= RemovedAsWritten(xs, es, lower, upper) <= Removed(xs, es, lower, upper) <= SpanTotal(es)
    decreases |es|
  {
    if |es| > 0 {
      var init := es[..|es| - 1];
      assert forall i :: 0 <= i < |init| ==> init[i] == es[i];
      RemovedWithinSpans(xs, init, lower, upper);
    }
  }

  lemma EntriesFit(xs: seq<real>, lower: real, upper: real)
    ensures 0 <= RemovedAsWritten(xs, Entries(EqualsNext(xs)), lower, upper)
    ensures RemovedAsWritten(xs, Entries(EqualsNext(xs)), lower, upper) <= Removed(xs, Entries(EqualsNext(xs)), lower, upper)
    ensures Removed(xs, Entries(EqualsNext(xs)), lower, upper) <= |xs|
  {
    var b := EqualsNext(xs);
    var es := Entries(b);
    EntriesDecompose(b);
    forall i | 0 <= i < |es|
      ensures es[i].start + es[i].count < |xs|
    {
      BlockIsRun(xs, es[i]);
    }
    SpansFit(b, es, |xs|);
    RemovedWithinSpans(xs, es, lower, upper);
  }

  /** Net rows never exceed the day's rows, and never go below zero; the
      script removes no more than the full runs would. */
  lemma NetRowsBounds(xs: seq<real>, lower: real, upper: real)
    ensures 0 <= NetRows(xs, lower, upper) <= NetRowsAsWritten(xs, lower, upper) <= |xs|
  {
    EntriesFit(xs, lower, upper);
  }

  lemma {:induction false} NothingIdleRemovesNothing(xs: seq<real>, es: seq<Entry>, lower: real, upper: real)
    requires forall i :: 0 <= i < |es| ==> !IdleRun(xs, es[i], lower, upper)
    ensures Removed(xs, es, lower, upper) == 0
    ensures RemovedAsWritten(xs, es, lower, upper) == 0
    decreases |es|
  {
    if |es| > 0 {
      var init := es[..|es| - 1];
      assert forall i :: 0 <= i < |init| ==> init[i] == es[i];
      NothingIdleRemovesNothing(xs, init, lower, upper);
    }
  }

  /** Short runs and runs of out-of-band values never change the count:
      when every run of more than 600 equal rows holds a value outside
      `[lower, upper]`, the whole day counts. */
  lemma NoIdleRunKeepsAllRows(xs: seq<real>, lower: real, upper: real)
    requires forall s, len :: RunOfEqual(xs, s, len) && len > LongRun ==> !(lower <= xs[s] <= upper)
    ensures NetRows(xs, lower, upper) == |xs|
    ensures NetRowsAsWritten(xs, lower, upper) == |xs|
  {
    var es := Entries(EqualsNext(xs));
    forall i | 0 <= i < |es|
      ensures !IdleRun(xs, es[i], lower, upper)
    {
      EntryIsRun(xs, i);
    }
    NothingIdleRemovesNothing(xs, es, lower, upper);
  }

  lemma OrderedHeadsDiffer(es: seq<Entry>)
    requires Ordered(es) && |es| >= 2 && es[0].count >= 0
    ensures es[0] != es[1]
  {
    assert es[0].start + es[0].count < es[1].start;
  }

  /** A day of `n` equal rows. */
  function Flat(n: nat, v: real): (xs: seq<real>)
    ensures |xs| == n && forall k :: 0 <= k < n ==> xs[k] == v
  {
    seq(n, _ => v)
  }

  /** A day of `n >= 2` equal rows has exactly one entry, counting `n - 1`. */
  lemma FlatDayEntries(n: nat, v: real)
    requires n >= 2
    ensures Entries(EqualsNext(Flat(n, v))) == [Entry(0, n - 1)]
  {
    var xs := Flat(n, v);
    var b := EqualsNext(xs);
    var es := Entries(b);
    var e := Entry(0, n - 1);
    assert RunOfEqual(xs, 0, n);
    RunYieldsOneEntry(xs, 0, n);
    EntriesDecompose(b);
    forall i | 0 <= i < |es|
      ensures es[i] == e
    {
      assert es[i].start == 0;
      MaximalBlocksMeet(b, es[i], e, 0);
    }
    if |es| >= 2 {
      OrderedHeadsDiffer(es);
      assert false;
    }
  }

  /** As written, an idle day of 602 or more rows keeps one row of
      treatment time, and one of exactly 601 rows keeps all of it. */
  lemma FlatIdleDayAsWritten(n: nat, v: real, lower: real, upper: real)
    requires lower <= v <= upper
    ensures n >= LongRun + 2 ==> NetRowsAsWritten(Flat(n, v), lower, upper) == 1
    ensures n == LongRun + 1 ==> NetRowsAsWritten(Flat(n, v), lower, upper) == n
  {
    if n >= LongRun + 1 {
      var xs := Flat(n, v);
      FlatDayEntries(n, v);
      var e := Entry(0, n - 1);
      assert [e][..0] == [];
      assert RemovedAsWritten(xs, [e], lower, upper) == if Idle(xs, e, lower, upper) then n - 1 else 0;
      assert xs[0] == v;
    }
  }

  /** With whole runs removed, an idle day of more than 600 rows counts no
      treatment time. */
  lemma FlatIdleDay(n: nat, v: real, lower: real, upper: real)
    requires lower <= v <= upper && n > LongRun
    ensures NetRows(Flat(n, v), lower, upper) == 0
  {
    var xs := Flat(n, v);
    FlatDayEntries(n, v);
    var e := Entry(0, n - 1);
    assert [e][..0] == [];
    assert Removed(xs, [e], lower, upper) == if IdleRun(xs, e, lower, upper) then n else 0;
    assert xs[0] == v;
  }

  lemma OrderedStartsIncrease(es: seq<Entry>, i: int, j: int)
    requires Ordered(es) && 0 <= i < j < |es| && es[i].count >= 0
    ensures es[i].start < es[j].start
  {
  }

  /** A day of `n` rows of `v` followed by `m` rows of another value has
      exactly two entries, one per run. */
  lemma TwoRunDayEntries(n: nat, v: real, m: nat, w: real)
    requires n >= 2 && m >= 2 && v != w
    ensures Entries(EqualsNext(Flat(n, v) + Flat(m, w))) == [Entry(0, n - 1), Entry(n, m - 1)]
  {
    var es := Entries(EqualsNext(Flat(n, v) + Flat(m, w)));
    var e1 := Entry(0, n - 1);
    var e2 := Entry(n, m - 1);
    TwoRunDayCandidates(n, v, m, w);
    if |es| >= 3 {
      OrderedStartsIncrease(es, 0, 1);
      OrderedStartsIncrease(es, 1, 2);
      assert false;
    }
    var i1 :| 0 <= i1 < |es| && es[i1] == e1;
    var i2 :| 0 <= i2 < |es| && es[i2] == e2;
    if i2 < i1 {
      OrderedStartsIncrease(es, i2, i1);
    }
    assert i1 == 0 && i2 == 1;
  }

  /** The entries of such a day are ordered, include both runs' entries and
      nothing else. */
  lemma TwoRunDayCandidates(n: nat, v: real, m: nat, w: real)
    requires n >= 2 && m >= 2 && v != w
    ensures var es := Entries(EqualsNext(Flat(n, v) + Flat(m, w)));
      Ordered(es) && Entry(0, n - 1) in es && Entry(n, m - 1) in es &&
      forall i :: 0 <= i < |es| ==> es[i].count >= 0 && (es[i] == Entry(0, n - 1) || es[i] == Entry(n, m - 1))
  {
    var xs := Flat(n, v) + Flat(m, w);
    var b := EqualsNext(xs);
    assert RunOfEqual(xs, 0, n);
    assert RunOfEqual(xs, n, m);
    RunYieldsOneEntry(xs, 0, n);
    RunYieldsOneEntry(xs, n, m);
    EntriesDecompose(b);
  }

  /** A long idle run followed by a shorter run of another value: as
      written, the idle run's first row stays in the count. */
  lemma IdleThenActiveAsWritten(n: nat, v: real, m: nat, w: real, lower: real, upper: real)
    requires n >= LongRun + 2 && 2 <= m <= LongRun + 1 && v != w && lower <= v <= upper
    ensures NetRowsAsWritten(Flat(n, v) + Flat(m, w), lower, upper) == m + 1
  {
    var xs := Flat(n, v) + Flat(m, w);
    TwoRunDayEntries(n, v, m, w);
    var e1 := Entry(0, n - 1);
    var e2 := Entry(n, m - 1);
    assert [e1, e2][..1] == [e1];
    assert [e1][..0] == [];
    assert xs[0] == v;
    assert RemovedAsWritten(xs, [e1], lower, upper) == n - 1;
    assert !Idle(xs, e2, lower, upper);
  }

  /** The same day with whole runs removed: only the active run counts. */
  lemma IdleThenActive(n: nat, v: real, m: nat, w: real, lower: real, upper: real)
    requires n > LongRun && 2 <= m <= LongRun && v != w && lower <= v <= upper
    ensures NetRows(Flat(n, v) + Flat(m, w), lower, upper) == m
  {
    var xs := Flat(n, v) + Flat(m, w);
    TwoRunDayEntries(n, v, m, w);
    var e1 := Entry(0, n - 1);
    var e2 := Entry(n, m - 1);
    assert [e1, e2][..1] == [e1];
    assert [e1][..0] == [];
    assert xs[0] == v;
    assert Removed(xs, [e1], lower, upper) == n;
    assert !IdleRun(xs, e2, lower, upper);
  }

  /** 700 rows of 0.0 then 100 rows of 3.0, with the zero band
      [-0.1, 0.1]: the script counts 10.1 seconds of treatment where
      removing the whole idle run gives 10.0. */
  lemma IdleMorningExample()
    ensures DayTreatmentAsWritten(Flat(700, 0.0) + Flat(100, 3.0), -0.1, 0.1).seconds == 10.1
    ensures DayTreatment(Flat(700, 0.0) + Flat(100, 3.0), -0.1, 0.1).seconds == 10.0
  {
    IdleThenActiveAsWritten(700, 0.0, 100, 3.0, -0.1, 0.1);
    IdleThenActive(700, 0.0, 100, 3.0, -0.1, 0.1);
  }

  /** A day's treatment time in seconds and in minutes. */
  datatype TreatmentTime = TreatmentTime(seconds: real, minutes: real)

  function Time(rows: int): (t: TreatmentTime)
    ensures t.seconds * (RowsPerSecond as real) == rows as real
    ensures t.minutes * 60.0 == t.seconds
  {
    TreatmentTime((rows as real) / (RowsPerSecond as real), (rows as real) / (RowsPerSecond as real) / 60.0)
  }

  /** The day's treatment time as the script computes it. */
  function DayTreatmentAsWritten(xs: seq<real>, lower: real, upper: real): (t: TreatmentTime)
    ensures 0.0 <= t.seconds && t.seconds * (RowsPerSecond as real) <= |xs| as real
  {
    NetRowsBounds(xs, lower, upper);
    Time(NetRowsAsWritten(xs, lower, upper))
  }

  /** The day's treatment time, from the net rows. */
  function DayTreatment(xs: seq<real>, lower: real, upper: real): (t: TreatmentTime)
    ensures 0.0 <= t.seconds && t.seconds * (RowsPerSecond as real) <= |xs| as real
  {
    NetRowsBounds(xs, lower, upper);
    Time(NetRows(xs, lower, upper))
  }
}
