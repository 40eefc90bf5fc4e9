/**
 * Instants, days and the day splitter.
 *
 * An instant is an integer number of milliseconds; local time is taken to be
 * UTC, so day `d` (the day whose ISO key names it) starts at `d * MsPerDay`.
 * A day's last instant is 23:59:59.999, one millisecond before the next
 * midnight: that is the `dayEnd` both splitters clip to.
 *
 * The splitter is the `cursor` loop that `push` in import.jsx and
 * `groupByDate` in App.jsx both run: walk the days from the start's midnight
 * while the cursor is not past the end, clip the occurrence to each day, and
 * append the clipped piece to that day's list when it is not empty.
 */
module Calendar {
  import opened Wrappers

  const MsPerMinute: int := 60000
  const MinutesPerDay: int := 1440
  const MsPerDay: int := 86400000

  /** Midnight opening day `d`. */
  function DayStart(d: int): int { d * MsPerDay }

  /** 23:59:59.999 on day `d`. */
  function DayEnd(d: int): int { d * MsPerDay + MsPerDay - 1 }

  /** The day an instant falls in (floor division). */
  function DayOf(t: int): (d: int)
    ensures DayStart(d) <= t <= DayEnd(d)
  {
    t / MsPerDay
  }

  lemma DayOfUnique(t: int, d: int)
    requires DayStart(d) <= t <= DayEnd(d)
    ensures DayOf(t) == d
  {
  }

  /** One stored fragment: `{ start, end, title }`. */
  datatype Fragment = Fragment(start: int, end: int, title: string)

  /** The title a fragment gets: the source's `title || "Event"`. */
  function DefaultTitle(t: Option<string>): string
  {
    if t.Some? && t.value != "" then t.value else "Event"
  }

  /** The date-keyed object `{ [dayISO]: [...] }` the splitters fill. */
  type DayMap = map<int, seq<Fragment>>

  /** A day's list, or [] when the key is absent (`map[day] || []`). */
  function Get<T>(m: map<int, seq<T>>, d: int): seq<T>
  {
    if d in m then m[d] else []
  }

  /** `(map[day] ||= []).push(f)`. */
  function AppendFragment(m: DayMap, d: int, f: Fragment): DayMap
  {
    m[d := Get(m, d) + [f]]
  }

  /** A piece of an occurrence, tagged with the day it is filed under. */
  type Piece = (int, Fragment)

  /** Files a list of pieces into `m`, one after the other. */
  function AppendAll(m: DayMap, ps: seq<Piece>): DayMap
    decreases |ps|
  {
    if ps == [] then m else AppendAll(AppendFragment(m, ps[0].0, ps[0].1), ps[1..])
  }

  /** The days a list of pieces is filed under. */
  function DaysOf(ps: seq<Piece>): set<int>
  {
    if ps == [] then {} else {ps[0].0} + DaysOf(ps[1..])
  }

  /** The fragments of `ps` filed under day `d`, in list order. */
  function OnDay(ps: seq<Piece>, d: int): seq<Fragment>
  {
    if ps == [] then []
    else (if ps[0].0 == d then [ps[0].1] else []) + OnDay(ps[1..], d)
  }

  lemma {:induction false} OnDayMember(ps: seq<Piece>, d: int, f: Fragment)
    ensures f in OnDay(ps, d) <==> (d, f) in ps
  {
    if ps != [] {
      OnDayMember(ps[1..], d, f);
      assert ps == [ps[0]] + ps[1..];
    }
  }

  lemma {:induction false} AppendAllKeys(m: DayMap, ps: seq<Piece>)
    ensures AppendAll(m, ps).Keys == m.Keys + DaysOf(ps)
    decreases |ps|
  {
    if ps != [] {
      AppendAllKeys(AppendFragment(m, ps[0].0, ps[0].1), ps[1..]);
    }
  }

  lemma {:induction false} AppendAllDay(m: DayMap, ps: seq<Piece>, d: int)
    ensures Get(AppendAll(m, ps), d) == Get(m, d) + OnDay(ps, d)
    decreases |ps|
  {
    if ps != [] {
      var m' := AppendFragment(m, ps[0].0, ps[0].1);
      var here: seq<Fragment> := if ps[0].0 == d then [ps[0].1] else [];
      AppendAllDay(m', ps[1..], d);
      assert Get(m', d) == Get(m, d) + here;
      assert OnDay(ps, d) == here + OnDay(ps[1..], d);
      assert Get(m, d) + here + OnDay(ps[1..], d) == Get(m, d) + (here + OnDay(ps[1..], d));
    }
  }

  /**
   * Filing pieces never removes or reorders what a day already holds: each
   * day's new list is its old list followed by the pieces filed under it,
   * in order, and only days of the pieces are added as keys.
   */
  lemma AppendAllSpec(m: DayMap, ps: seq<Piece>)
    ensures AppendAll(m, ps).Keys == m.Keys + DaysOf(ps)
    ensures forall d :: Get(AppendAll(m, ps), d) == Get(m, d) + OnDay(ps, d)
  {
    AppendAllKeys(m, ps);
    forall d ensures Get(AppendAll(m, ps), d) == Get(m, d) + OnDay(ps, d) {
      AppendAllDay(m, ps, d);
    }
  }

  lemma {:induction false} AppendAllConcat(m: DayMap, xs: seq<Piece>, ys: seq<Piece>)
    ensures AppendAll(AppendAll(m, xs), ys) == AppendAll(m, xs + ys)
    decreases |xs|
  {
    if xs != [] {
      AppendAllConcat(AppendFragment(m, xs[0].0, xs[0].1), xs[1..], ys);
      assert (xs + ys)[1..] == xs[1..] + ys;
    } else {
      assert xs + ys == ys;
    }
  }

  /** A piece of `[start, end]` clipped to day `d`: `[max(start, dayStart), min(end, dayEnd)]`. */
  function Clip(d: int, start: int, end: int, title: string): Fragment
  {
    Fragment(Max(start, DayStart(d)), Min(end, DayEnd(d)), title)
  }

  /** The pieces the cursor loop files, from day `d` on. */
  function PiecesFrom(d: int, start: int, end: int, title: string): seq<Piece>
    decreases end - DayStart(d)
  {
    if DayStart(d) > end then []
    else
      var f := Clip(d, start, end, title);
      (if f.end > f.start then [(d, f)] else []) + PiecesFrom(d + 1, start, end, title)
  }

  /** The pieces one occurrence `[start, end]` is split into, in day order. */
  function DayPieces(start: int, end: int, title: string): seq<Piece>
  {
    PiecesFrom(DayOf(start), start, end, title)
  }

  /** A fragment lies within day `d` and within `[start, end]`, and is not empty. */
  predicate PlacedIn(f: Fragment, d: int, start: int, end: int)
  {
    && DayStart(d) <= f.start < f.end <= DayEnd(d)
    && start <= f.start && f.end <= end
  }

  lemma {:induction false} PiecesFromPlaced(d: int, start: int, end: int, title: string)
    ensures forall p :: p in PiecesFrom(d, start, end, title) ==>
      PlacedIn(p.1, p.0, start, end) && p.1.title == title && d <= p.0 <= DayOf(end)
    decreases end - DayStart(d)
  {
    if DayStart(d) <= end {
      PiecesFromPlaced(d + 1, start, end, title);
    }
  }

  /**
   * Every piece of an occurrence lies within its day's [00:00, 23:59:59.999]
   * and within the occurrence, is not empty, and carries the title; the days
   * run from the start's day to the end's day.
   */
  lemma DayPiecesPlaced(start: int, end: int, title: string)
    ensures forall p :: p in DayPieces(start, end, title) ==>
      PlacedIn(p.1, p.0, start, end) && p.1.title == title && DayOf(start) <= p.0 <= DayOf(end)
  {
    PiecesFromPlaced(DayOf(start), start, end, title);
  }

  lemma {:induction false} PiecesFromDaysIncrease(d: int, start: int, end: int, title: string)
    ensures forall i :: 0 <= i < |PiecesFrom(d, start, end, title)| ==> d <= PiecesFrom(d, start, end, title)[i].0
    ensures forall i, j :: 0 <= i < j < |PiecesFrom(d, start, end, title)| ==>
      PiecesFrom(d, start, end, title)[i].0 < PiecesFrom(d, start, end, title)[j].0
    decreases end - DayStart(d)
  {
    if DayStart(d) <= end {
      PiecesFromDaysIncrease(d + 1, start, end, title);
    }
  }

  /** At most one piece per day: the days of the pieces strictly increase. */
  lemma DayPiecesOnePerDay(start: int, end: int, title: string)
    ensures forall i, j :: 0 <= i < j < |DayPieces(start, end, title)| ==>
      DayPieces(start, end, title)[i].0 < DayPieces(start, end, title)[j].0
  {
    PiecesFromDaysIncrease(DayOf(start), start, end, title);
  }

  /** A zero-length or inverted occurrence yields no piece. */
  lemma DayPiecesEmpty(start: int, end: int, title: string)
    requires end <= start
    ensures DayPieces(start, end, title) == []
  {
    var d := DayOf(start);
    if DayStart(d) <= end {
      assert DayStart(d + 1) > end;
      assert PiecesFrom(d + 1, start, end, title) == [];
    }
  }

  /** An occurrence inside one day yields exactly one piece, equal to itself. */
  lemma DayPiecesSingleDay(start: int, end: int, title: string)
    requires start < end && DayOf(start) == DayOf(end)
    ensures DayPieces(start, end, title) == [(DayOf(start), Fragment(start, end, title))]
  {
    var d := DayOf(start);
    assert DayStart(d + 1) > end;
    assert PiecesFrom(d + 1, start, end, title) == [];
  }

  /** An occurrence ending exactly at a midnight yields nothing for the day that midnight opens. */
  lemma DayPiecesEndAtMidnight(start: int, d: int, title: string)
    requires start < DayStart(d)
    ensures forall p :: p in DayPieces(start, DayStart(d), title) ==> p.0 < d
  {
    DayPiecesPlaced(start, DayStart(d), title);
  }

  /**
   * Because a day ends at 23:59:59.999, an occurrence that covers only the
   * last millisecond before a midnight yields no piece at all.
   */
  lemma DayPiecesLastMillisecond(d: int, title: string)
    ensures DayPieces(DayEnd(d), DayStart(d + 1), title) == []
  {
    var start := DayEnd(d);
    var end := DayStart(d + 1);
    assert DayOf(start) == d;
    assert Clip(d, start, end, title).end == start;
    assert Clip(d + 1, start, end, title).end == end;
    assert DayStart(d + 2) > end;
    assert PiecesFrom(d + 2, start, end, title) == [];
    assert PiecesFrom(d + 1, start, end, title) == [] + PiecesFrom(d + 2, start, end, title);
    assert PiecesFrom(d, start, end, title) == [] + PiecesFrom(d + 1, start, end, title);
  }

  function Durations(ps: seq<Piece>): int
  {
    if ps == [] then 0 else (ps[0].1.end - ps[0].1.start) + Durations(ps[1..])
  }

  lemma {:induction false} PiecesFromDuration(d: int, start: int, end: int, title: string)
    requires start <= end && DayOf(start) <= d <= DayOf(end)
    ensures Durations(PiecesFrom(d, start, end, title)) == end - Max(start, DayStart(d)) - (DayOf(end) - d)
    decreases end - DayStart(d)
  {
    var f := Clip(d, start, end, title);
    var rest := PiecesFrom(d + 1, start, end, title);
    var head: seq<Piece> := if f.end > f.start then [(d, f)] else [];
    assert PiecesFrom(d, start, end, title) == head + rest;
    assert Durations(head + rest) == Durations(head) + Durations(rest) by {
      if head != [] { assert (head + rest)[1..] == rest; } else { assert head + rest == rest; }
    }
    if d == DayOf(end) {
      assert rest == [];
    } else {
      assert start < DayStart(d + 1);
      PiecesFromDuration(d + 1, start, end, title);
    }
  }

  /**
   * The pieces' lengths add up to the occurrence's length less one
   * millisecond per midnight crossed: clipping to 23:59:59.999 drops the
   * last millisecond of every day the occurrence runs past.
   */
  lemma DayPiecesDuration(start: int, end: int, title: string)
    requires start <= end
    ensures Durations(DayPieces(start, end, title)) == end - start - (DayOf(end) - DayOf(start))
  {
    PiecesFromDuration(DayOf(start), start, end, title);
  }

  /**
   * The cursor loop (`push`, import.jsx): starting at the midnight of the
   * start's day, file the clipped piece of each day while the cursor is not
   * past the end. `iterations` counts the days the cursor visits.
   */
  method Push(out: DayMap, start: int, end: int, title: string) returns (r: DayMap, ghost iterations: int)
    ensures r == AppendAll(out, DayPieces(start, end, title))
    ensures iterations == Max(0, DayOf(end) - DayOf(start) + 1)
  {
    var cursor := DayStart(DayOf(start));
    ghost var d := DayOf(start);
    r := out;
    iterations := 0;
    while cursor <= end
      invariant cursor == DayStart(d)
      invariant iterations == d - DayOf(start)
      invariant DayOf(start) <= d <= Max(DayOf(start), DayOf(end) + 1)
      invariant AppendAll(r, PiecesFrom(d, start, end, title)) == AppendAll(out, DayPieces(start, end, title))
      decreases end - cursor
    {
      var dayStart := cursor;
      var dayEnd := cursor + MsPerDay - 1;
      var s := Max(start, dayStart);
      var e := Min(end, dayEnd);
      var day := cursor / MsPerDay;
      assert day == d by { DayOfUnique(cursor, d); }
      ghost var head: seq<Piece> := if e > s then [(d, Fragment(s, e, title))] else [];
      assert PiecesFrom(d, start, end, title) == head + PiecesFrom(d + 1, start, end, title);
      AppendAllConcat(r, head, PiecesFrom(d + 1, start, end, title));
      ghost var r0 := r;
      if e > s {
        r := AppendFragment(r, day, Fragment(s, e, title));
      }
      assert r == AppendAll(r0, head);
      assert d <= DayOf(end);
      cursor := cursor + MsPerDay;
      d := d + 1;
      iterations := iterations + 1;
    }
    assert PiecesFrom(d, start, end, title) == [];
    if DayOf(end) + 1 >= DayOf(start) {
      assert d == DayOf(end) + 1;
    }
  }
}
