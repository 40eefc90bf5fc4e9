/**
 * The minute-interval algebra of App.jsx: `clampToDay` turns a day's
 * fragments into minute intervals, `mergeOverlaps` sorts them by start and
 * sweeps once, folding every interval that overlaps or merely touches the
 * last merged one into it, and `totalMinutes` sums their lengths.
 *
 * A minute interval `{startMin, endMin}` covers the minutes m with
 * startMin <= m < endMin.
 */
module Intervals {
  import opened Wrappers
  import opened Calendar

  datatype Interval = Interval(startMin: int, endMin: int)

  /** `Math.round(ms / 60000)`: floor(x + 1/2) of the exact quotient. */
  function RoundToMinute(ms: int): int
  {
    (ms + MsPerMinute / 2) / MsPerMinute
  }

  predicate NonEmpty(iv: Interval) { iv.startMin < iv.endMin }

  /** A non-empty interval inside the day's 1440 minutes. */
  predicate InDay(iv: Interval) { 0 <= iv.startMin < iv.endMin <= MinutesPerDay }

  /** One fragment's `{startMin, endMin}` relative to day `d`, before the filter. */
  function ClampOne(f: Fragment, d: int): Interval
  {
    var dayStart := DayStart(d);
    var dayEnd := DayEnd(d);
    Interval(
      Max(0, RoundToMinute(Max(f.start, dayStart) - dayStart)),
      Min(MinutesPerDay, RoundToMinute(Min(f.end, dayEnd) - dayStart)))
  }

  /** `events.map(ClampOne).filter(iv => iv.endMin > iv.startMin)`. */
  function ClampAll(events: seq<Fragment>, d: int): seq<Interval>
  {
    if events == [] then []
    else
      var iv := ClampOne(events[0], d);
      (if NonEmpty(iv) then [iv] else []) + ClampAll(events[1..], d)
  }

  /** `clampToDay(events, dateISO)`; `None` is the empty date key "". */
  function ClampToDay(events: seq<Fragment>, date: Option<int>): seq<Interval>
  {
    if date.None? then [] else ClampAll(events, date.value)
  }

  lemma {:induction false} ClampAllInDay(events: seq<Fragment>, d: int)
    ensures forall i :: 0 <= i < |ClampAll(events, d)| ==> InDay(ClampAll(events, d)[i])
  {
    if events != [] {
      ClampAllInDay(events[1..], d);
    }
  }

  /**
   * An empty date key gives []; otherwise every interval lies within the
   * day's minutes and is not empty.
   */
  lemma ClampToDayInDay(events: seq<Fragment>, date: Option<int>)
    ensures date.None? ==> ClampToDay(events, date) == []
    ensures forall i :: 0 <= i < |ClampToDay(events, date)| ==> InDay(ClampToDay(events, date)[i])
  {
    if date.Some? {
      ClampAllInDay(events, date.value);
    }
  }

  /**
   * An interval survives exactly when it is the non-empty clamp of some
   * fragment of the day.
   */
  lemma {:induction false} ClampToDayMember(events: seq<Fragment>, d: int, iv: Interval)
    ensures iv in ClampToDay(events, Some(d)) <==>
      NonEmpty(iv) && exists i :: 0 <= i < |events| && ClampOne(events[i], d) == iv
  {
    if events != [] {
      ClampToDayMember(events[1..], d, iv);
      if NonEmpty(iv) && exists i :: 0 <= i < |events| && ClampOne(events[i], d) == iv {
        var i :| 0 <= i < |events| && ClampOne(events[i], d) == iv;
        if i > 0 { assert events[1..][i - 1] == events[i]; }
      }
    }
  }

  /** Clamping keeps input order: it distributes over concatenation. */
  lemma {:induction false} ClampToDayAppend(a: seq<Fragment>, b: seq<Fragment>, date: Option<int>)
    ensures ClampToDay(a + b, date) == ClampToDay(a, date) + ClampToDay(b, date)
  {
    if date.Some? {
      if a == [] {
        assert a + b == b;
      } else {
        ClampToDayAppend(a[1..], b, date);
        assert (a + b)[1..] == a[1..] + b;
      }
    }
  }

  /**
   * An event from 23:00 on day D to 01:00 on day D+1 clamps to 1380..1440 on
   * day D (23:59:59.999 rounds up to minute 1440) and to 0..60 on day D+1.
   */
  lemma ClampAcrossMidnight(d: int, title: string)
    ensures ClampToDay([Fragment(DayStart(d) + 1380 * MsPerMinute, DayStart(d + 1) + 60 * MsPerMinute, title)], Some(d))
      == [Interval(1380, 1440)]
    ensures ClampToDay([Fragment(DayStart(d) + 1380 * MsPerMinute, DayStart(d + 1) + 60 * MsPerMinute, title)], Some(d + 1))
      == [Interval(0, 60)]
  {
    var f := Fragment(DayStart(d) + 1380 * MsPerMinute, DayStart(d + 1) + 60 * MsPerMinute, title);
    assert ClampOne(f, d) == Interval(1380, 1440);
    assert ClampOne(f, d + 1) == Interval(0, 60);
    assert [f][1..] == [];
    assert ClampAll([f], d) == [ClampOne(f, d)] + ClampAll([], d);
    assert ClampAll([f], d + 1) == [ClampOne(f, d + 1)] + ClampAll([], d + 1);
  }

  // ---------------------------------------------------------------------
  // Sorting: `intervals.slice().sort((a, b) => a.startMin - b.startMin)`

  predicate SortedByStart(s: seq<Interval>)
  {
    forall i, j :: 0 <= i < j < |s| ==> s[i].startMin <= s[j].startMin
  }

  /** Inserts `x` after every element whose start is not greater (stable). */
  function Insert(s: seq<Interval>, x: Interval): (r: seq<Interval>)
    ensures multiset(r) == multiset(s) + multiset{x}
  {
    if s == [] then [x]
    else if s[|s| - 1].startMin <= x.startMin then s + [x]
    else
      assert s == s[..|s| - 1] + [s[|s| - 1]];
      Insert(s[..|s| - 1], x) + [s[|s| - 1]]
  }

  lemma {:induction false} InsertSorted(s: seq<Interval>, x: Interval)
    requires SortedByStart(s)
    ensures SortedByStart(Insert(s, x))
  {
    if s != [] && s[|s| - 1].startMin > x.startMin {
      var p := s[..|s| - 1];
      var l := s[|s| - 1];
      var q := Insert(p, x);
      InsertSorted(p, x);
      assert Insert(s, x) == q + [l];
      forall i | 0 <= i < |q| ensures q[i].startMin <= l.startMin {
        assert q[i] in multiset(q);
        if q[i] != x {
          assert q[i] in multiset(p);
          var k :| 0 <= k < |p| && p[k] == q[i];
          assert s[k] == p[k];
        }
      }
    }
  }

  /** A stable sort by `startMin`, as `Array.prototype.sort` is. */
  function SortByStart(s: seq<Interval>): (r: seq<Interval>)
    ensures multiset(r) == multiset(s)
    ensures SortedByStart(r)
  {
    if s == [] then []
    else
      assert s == s[..|s| - 1] + [s[|s| - 1]];
      InsertSorted(SortByStart(s[..|s| - 1]), s[|s| - 1]);
      Insert(SortByStart(s[..|s| - 1]), s[|s| - 1])
  }

  lemma {:induction false} SortSortedIsIdentity(s: seq<Interval>)
    requires SortedByStart(s)
    ensures SortByStart(s) == s
  {
    if s != [] {
      var p := s[..|s| - 1];
      var x := s[|s| - 1];
      assert SortedByStart(p) by {
        forall i, j | 0 <= i < j < |p| ensures p[i].startMin <= p[j].startMin {
          assert p[i] == s[i] && p[j] == s[j];
        }
      }
      SortSortedIsIdentity(p);
      assert SortByStart(s) == Insert(p, x);
      if p != [] {
        assert p[|p| - 1] == s[|s| - 2];
      }
      assert s == p + [x];
    }
  }

  // ---------------------------------------------------------------------
  // The sweep

  function Last(s: seq<Interval>): Interval
    requires s != []
  {
    s[|s| - 1]
  }

  /** One sweep step: push a copy of `iv`, or extend the last merged interval. */
  function SweepStep(out: seq<Interval>, iv: Interval): seq<Interval>
  {
    if out == [] || iv.startMin > Last(out).endMin then out + [iv]
    else out[..|out| - 1] + [Interval(Last(out).startMin, Max(Last(out).endMin, iv.endMin))]
  }

  /** The sweep over a whole (sorted) list. */
  function Swept(s: seq<Interval>): seq<Interval>
  {
    if s == [] then [] else SweepStep(Swept(s[..|s| - 1]), Last(s))
  }

  /** What `mergeOverlaps` returns. */
  function Merged(s: seq<Interval>): seq<Interval>
  {
    Swept(SortByStart(s))
  }

  /**
   * `mergeOverlaps`: sort a copy, then sweep, pushing a copy of an interval
   * that starts after the last merged end and otherwise extending that last
   * interval's end. The input list is a value and is left as it was.
   */
  method MergeOverlaps(intervals: seq<Interval>) returns (out: seq<Interval>)
    ensures out == Merged(intervals)
  {
    var sorted := SortByStart(intervals);
    out := [];
    for i := 0 to |sorted|
      invariant out == Swept(sorted[..i])
    {
      var iv := sorted[i];
      if out == [] || iv.startMin > out[|out| - 1].endMin {
        out := out + [iv];
      } else {
        var last := out[|out| - 1];
        out := out[..|out| - 1] + [last.(endMin := Max(last.endMin, iv.endMin))];
      }
      assert sorted[..i + 1][..i] == sorted[..i];
    }
    assert sorted[..|sorted|] == sorted;
  }

  /** Each merged interval ends strictly before the next one starts. */
  predicate Separated(s: seq<Interval>)
  {
    forall i :: 0 <= i < |s| - 1 ==> s[i].endMin < s[i + 1].startMin
  }

  lemma {:induction false} SweptSeparated(s: seq<Interval>)
    ensures Separated(Swept(s))
  {
    if s != [] {
      SweptSeparated(s[..|s| - 1]);
    }
  }

  /** On sorted input the last merged interval starts no later than the last input. */
  lemma {:induction false} SweptLastStart(s: seq<Interval>)
    requires SortedByStart(s)
    ensures |Swept(s)| <= |s|
    ensures s != [] ==> Swept(s) != [] && Last(Swept(s)).startMin <= Last(s).startMin
  {
    if s != [] {
      var p := s[..|s| - 1];
      SweptLastStart(p);
    }
  }

  lemma {:induction false} SweptSorted(s: seq<Interval>)
    requires SortedByStart(s)
    ensures SortedByStart(Swept(s))
  {
    if s != [] {
      var p := s[..|s| - 1];
      SortedPrefix(s);
      SweptSorted(p);
      SweptLastStart(p);
      var out := Swept(p);
      if out == [] || Last(s).startMin > Last(out).endMin {
        if p != [] {
          assert Last(p) == s[|s| - 2];
        }
        SortedSnoc(out, Last(s));
      } else {
        SortedReplaceLast(out, Interval(Last(out).startMin, Max(Last(out).endMin, Last(s).endMin)));
      }
    }
  }

  lemma SortedPrefix(s: seq<Interval>)
    requires SortedByStart(s) && s != []
    ensures SortedByStart(s[..|s| - 1])
  {
    var p := s[..|s| - 1];
    forall i, j | 0 <= i < j < |p| ensures p[i].startMin <= p[j].startMin {
      assert p[i] == s[i] && p[j] == s[j];
    }
  }

  lemma SortedSnoc(s: seq<Interval>, x: Interval)
    requires SortedByStart(s)
    requires s != [] ==> Last(s).startMin <= x.startMin
    ensures SortedByStart(s + [x])
  {
    var r := s + [x];
    forall i, j | 0 <= i < j < |r| ensures r[i].startMin <= r[j].startMin {
      assert r[i] == s[i];
      if j < |s| {
        assert r[j] == s[j];
      } else {
        assert s[i].startMin <= Last(s).startMin;
      }
    }
  }

  lemma SortedReplaceLast(s: seq<Interval>, y: Interval)
    requires SortedByStart(s) && s != []
    requires y.startMin == Last(s).startMin
    ensures SortedByStart(s[..|s| - 1] + [y])
  {
    var r := s[..|s| - 1] + [y];
    forall i, j | 0 <= i < j < |r| ensures r[i].startMin <= r[j].startMin {
      assert r[i] == s[i];
      assert r[j].startMin == s[j].startMin;
    }
  }

  /**
   * The output of `mergeOverlaps` is sorted by start and each next start is
   * strictly greater than the previous end, so touching intervals never
   * survive side by side.
   */
  lemma MergedSortedSeparated(s: seq<Interval>)
    ensures SortedByStart(Merged(s))
    ensures Separated(Merged(s))
  {
    SweptSorted(SortByStart(s));
    SweptSeparated(SortByStart(s));
  }

  lemma {:induction false} SweptNonEmpty(s: seq<Interval>)
    requires forall i :: 0 <= i < |s| ==> NonEmpty(s[i])
    ensures forall i :: 0 <= i < |Swept(s)| ==> NonEmpty(Swept(s)[i])
  {
    if s != [] {
      SweptNonEmpty(s[..|s| - 1]);
    }
  }

  /** Merging non-empty intervals yields non-empty intervals. */
  lemma MergedNonEmpty(s: seq<Interval>)
    requires forall i :: 0 <= i < |s| ==> NonEmpty(s[i])
    ensures forall i :: 0 <= i < |Merged(s)| ==> NonEmpty(Merged(s)[i])
  {
    var t := SortByStart(s);
    forall i | 0 <= i < |t| ensures NonEmpty(t[i]) {
      assert t[i] in multiset(s);
    }
    SweptNonEmpty(t);
  }

  predicate Within(s: seq<Interval>, lo: int, hi: int)
  {
    forall i :: 0 <= i < |s| ==> lo <= s[i].startMin && s[i].endMin <= hi
  }

  lemma {:induction false} SweptWithin(s: seq<Interval>, lo: int, hi: int)
    requires Within(s, lo, hi)
    ensures Within(Swept(s), lo, hi)
  {
    if s != [] {
      SweptWithin(s[..|s| - 1], lo, hi);
    }
  }

  /** Merging never reaches outside the bounds its input keeps to. */
  lemma MergedWithin(s: seq<Interval>, lo: int, hi: int)
    requires Within(s, lo, hi)
    ensures Within(Merged(s), lo, hi)
  {
    var t := SortByStart(s);
    forall i | 0 <= i < |t| ensures lo <= t[i].startMin && t[i].endMin <= hi {
      assert t[i] in multiset(s);
    }
    SweptWithin(t, lo, hi);
  }

  // ---------------------------------------------------------------------
  // Covered minutes

  /** Minute `m` lies in some interval of `s`. */
  predicate Covers(s: seq<Interval>, m: int)
  {
    exists i :: 0 <= i < |s| && s[i].startMin <= m < s[i].endMin
  }

  lemma CoversPermutation(s: seq<Interval>, t: seq<Interval>, m: int)
    requires multiset(s) == multiset(t)
    ensures Covers(s, m) <==> Covers(t, m)
  {
    if Covers(s, m) {
      var i :| 0 <= i < |s| && s[i].startMin <= m < s[i].endMin;
      assert s[i] in multiset(t);
      var j :| 0 <= j < |t| && t[j] == s[i];
    }
    if Covers(t, m) {
      var j :| 0 <= j < |t| && t[j].startMin <= m < t[j].endMin;
      assert t[j] in multiset(s);
      var i :| 0 <= i < |s| && s[i] == t[j];
    }
  }

  lemma CoversSnoc(s: seq<Interval>, x: Interval, m: int)
    ensures Covers(s + [x], m) <==> Covers(s, m) || x.startMin <= m < x.endMin
  {
    if Covers(s, m) {
      var i :| 0 <= i < |s| && s[i].startMin <= m < s[i].endMin;
      assert (s + [x])[i] == s[i];
    }
    if x.startMin <= m < x.endMin {
      assert (s + [x])[|s|] == x;
    }
    if Covers(s + [x], m) {
      var i :| 0 <= i < |s + [x]| && (s + [x])[i].startMin <= m < (s + [x])[i].endMin;
      if i < |s| {
        assert s[i] == (s + [x])[i];
        assert Covers(s, m);
      }
    }
  }

  /** Extending `l` by an interval starting inside it covers the union of the two. */
  lemma CoversExtend(q: seq<Interval>, l: Interval, x: Interval, m: int)
    requires l.startMin <= x.startMin <= l.endMin
    ensures Covers(q + [Interval(l.startMin, Max(l.endMin, x.endMin))], m) <==>
      Covers(q + [l], m) || x.startMin <= m < x.endMin
  {
    CoversSnoc(q, l, m);
    CoversSnoc(q, Interval(l.startMin, Max(l.endMin, x.endMin)), m);
  }

  /** A sweep step adds exactly the minutes of the interval it takes in. */
  lemma SweepStepCovers(out: seq<Interval>, x: Interval, m: int)
    requires out != [] ==> Last(out).startMin <= x.startMin
    ensures Covers(SweepStep(out, x), m) <==> Covers(out, m) || x.startMin <= m < x.endMin
  {
    if out == [] || x.startMin > Last(out).endMin {
      CoversSnoc(out, x, m);
    } else {
      var q := out[..|out| - 1];
      assert out == q + [Last(out)];
      CoversExtend(q, Last(out), x, m);
    }
  }

  lemma {:induction false} SweptCovers(s: seq<Interval>, m: int)
    requires SortedByStart(s)
    ensures Covers(Swept(s), m) <==> Covers(s, m)
  {
    if s != [] {
      var p := s[..|s| - 1];
      assert s == p + [Last(s)];
      assert SortedByStart(p);
      SweptCovers(p, m);
      SweptLastStart(p);
      CoversSnoc(p, Last(s), m);
      SweepStepCovers(Swept(p), Last(s), m);
    }
  }

  /** `mergeOverlaps` covers exactly the minutes its input covers. */
  lemma MergedCovers(s: seq<Interval>, m: int)
    ensures Covers(Merged(s), m) <==> Covers(s, m)
  {
    SweptCovers(SortByStart(s), m);
    CoversPermutation(SortByStart(s), s, m);
  }

  lemma {:induction false} SweptSeparatedIsIdentity(s: seq<Interval>)
    requires Separated(s)
    ensures Swept(s) == s
  {
    if s != [] {
      var p := s[..|s| - 1];
      assert Separated(p);
      SweptSeparatedIsIdentity(p);
      assert s == p + [Last(s)];
    }
  }

  /** `mergeOverlaps` is idempotent. */
  lemma MergedIdempotent(s: seq<Interval>)
    ensures Merged(Merged(s)) == Merged(s)
  {
    var r := Merged(s);
    MergedSortedSeparated(s);
    SortSortedIsIdentity(r);
    SweptSeparatedIsIdentity(r);
  }

  // ---------------------------------------------------------------------
  // totalMinutes

  /** `intervals.reduce((s, iv) => s + (iv.endMin - iv.startMin), 0)`. */
  function TotalMinutes(s: seq<Interval>): int
  {
    if s == [] then 0 else TotalMinutes(s[..|s| - 1]) + (Last(s).endMin - Last(s).startMin)
  }

  /** The total of a concatenation is the sum of the totals; [] totals 0. */
  lemma {:induction false} TotalMinutesAppend(a: seq<Interval>, b: seq<Interval>)
    ensures TotalMinutes([]) == 0
    ensures TotalMinutes(a + b) == TotalMinutes(a) + TotalMinutes(b)
    decreases |b|
  {
    if b != [] {
      TotalMinutesAppend(a, b[..|b| - 1]);
      assert a + b == (a + b[..|b| - 1]) + [Last(b)];
    } else {
      assert a + b == a;
    }
  }

  /** The minutes lo, lo+1, ..., hi-1. */
  function MinuteRange(lo: int, hi: int): set<int>
    decreases hi - lo
  {
    if hi <= lo then {} else MinuteRange(lo, hi - 1) + {hi - 1}
  }

  lemma {:induction false} MinuteRangeSpec(lo: int, hi: int)
    ensures forall m :: m in MinuteRange(lo, hi) <==> lo <= m < hi
    ensures lo <= hi ==> |MinuteRange(lo, hi)| == hi - lo
    decreases hi - lo
  {
    if lo < hi {
      MinuteRangeSpec(lo, hi - 1);
    }
  }

  /** The set of minutes a list of intervals covers. */
  function CoveredSet(s: seq<Interval>): set<int>
  {
    if s == [] then {} else CoveredSet(s[..|s| - 1]) + MinuteRange(Last(s).startMin, Last(s).endMin)
  }

  lemma {:induction false} CoveredSetIsCovers(s: seq<Interval>, m: int)
    ensures m in CoveredSet(s) <==> Covers(s, m)
  {
    if s != [] {
      CoveredSetIsCovers(s[..|s| - 1], m);
      assert s == s[..|s| - 1] + [Last(s)];
      CoversSnoc(s[..|s| - 1], Last(s), m);
      MinuteRangeSpec(Last(s).startMin, Last(s).endMin);
    }
  }

  lemma {:induction false} CoveredSetBelow(s: seq<Interval>, m: int)
    requires s != [] && Separated(s)
    requires forall i :: 0 <= i < |s| ==> NonEmpty(s[i])
    requires m in CoveredSet(s)
    ensures m < Last(s).endMin
  {
    var p := s[..|s| - 1];
    MinuteRangeSpec(Last(s).startMin, Last(s).endMin);
    if m !in MinuteRange(Last(s).startMin, Last(s).endMin) {
      assert p != [];
      assert Separated(p);
      CoveredSetBelow(p, m);
      assert Last(p).endMin < Last(s).startMin;
    }
  }

  /**
   * On separated non-empty intervals (what `mergeOverlaps` returns)
   * `totalMinutes` is the number of covered minutes.
   */
  lemma {:induction false} TotalIsCoveredCount(s: seq<Interval>)
    requires Separated(s)
    requires forall i :: 0 <= i < |s| ==> NonEmpty(s[i])
    ensures TotalMinutes(s) == |CoveredSet(s)|
  {
    if s != [] {
      var p := s[..|s| - 1];
      var x := Last(s);
      TotalIsCoveredCount(p);
      assert Separated(p);
      MinuteRangeSpec(x.startMin, x.endMin);
      if p != [] {
        forall m | m in CoveredSet(p) ensures m !in MinuteRange(x.startMin, x.endMin) {
          CoveredSetBelow(p, m);
          assert Last(p).endMin < x.startMin;
        }
      }
      assert CoveredSet(p) !! MinuteRange(x.startMin, x.endMin);
    }
  }

  /**
   * `totalMinutes(mergeOverlaps(ivs))` counts the minutes the intervals
   * cover, each once, however the input overlaps.
   */
  lemma MergedTotal(s: seq<Interval>)
    requires forall i :: 0 <= i < |s| ==> NonEmpty(s[i])
    ensures TotalMinutes(Merged(s)) == |CoveredSet(s)|
  {
    MergedSortedSeparated(s);
    MergedNonEmpty(s);
    TotalIsCoveredCount(Merged(s));
    forall m ensures m in CoveredSet(Merged(s)) <==> m in CoveredSet(s) {
      CoveredSetIsCovers(Merged(s), m);
      CoveredSetIsCovers(s, m);
      MergedCovers(s, m);
    }
    assert CoveredSet(Merged(s)) == CoveredSet(s);
  }

  /** Touching intervals merge: [0,60] and [60,120] give [0,120]. */
  lemma MergeTouchingExample()
    ensures Merged([Interval(0, 60), Interval(60, 120)]) == [Interval(0, 120)]
  {
    var s := [Interval(0, 60), Interval(60, 120)];
    assert SortByStart(s) == s by { SortSortedIsIdentity(s); }
    assert s[..1] == [Interval(0, 60)];
    assert s[..1][..0] == [];
    assert Swept(s[..1]) == [Interval(0, 60)];
    assert Swept(s) == SweepStep([Interval(0, 60)], Interval(60, 120));
  }

  /** [0,90], [60,120], [200,240] merge to [0,120], [200,240], totalling 160. */
  lemma MergeOverlapExample()
    ensures Merged([Interval(0, 90), Interval(60, 120), Interval(200, 240)]) == [Interval(0, 120), Interval(200, 240)]
    ensures TotalMinutes(Merged([Interval(0, 90), Interval(60, 120), Interval(200, 240)])) == 160
  {
    var s := [Interval(0, 90), Interval(60, 120), Interval(200, 240)];
    var r := [Interval(0, 120), Interval(200, 240)];
    assert SortByStart(s) == s by { SortSortedIsIdentity(s); }
    SweptOverlapExample();
    assert r[..1] == [Interval(0, 120)];
    assert r[..1][..0] == [];
  }

  lemma SweptOverlapExample()
    ensures Swept([Interval(0, 90), Interval(60, 120), Interval(200, 240)]) == [Interval(0, 120), Interval(200, 240)]
  {
    var s := [Interval(0, 90), Interval(60, 120), Interval(200, 240)];
    assert s[..2] == [Interval(0, 90), Interval(60, 120)];
    assert s[..2][..1] == [Interval(0, 90)];
    assert s[..2][..1][..0] == [];
    assert Swept(s[..2][..1]) == [Interval(0, 90)];
    assert Swept(s[..2]) == SweepStep([Interval(0, 90)], Interval(60, 120)) == [Interval(0, 120)];
  }
}
