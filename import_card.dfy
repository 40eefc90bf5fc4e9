/**
 * `expandIcsToMap` of import.jsx: group the VEVENT blocks into series by
 * UID (the last non-exception block is the master, exceptions are kept in
 * document order), then, series by series in first-seen order, split every
 * occurrence the master yields inside the window into per-day fragments.
 *
 * ical.js is not part of this model. A block is what ical.js reports about
 * it: its UID, whether it is a recurrence exception, its summary, whether it
 * recurs, its own start and end, and, for a recurring master, the finite
 * list of values its occurrence iterator yields, each paired with the start
 * and end `getOccurrenceDetails` gives for it (exceptions are substituted
 * there, inside ical.js).
 */
module ImportCard {
  import opened Wrappers
  import opened Calendar

  /** One iterator value (`next`) and its occurrence details. */
  datatype Instance = Instance(recurrenceStart: int, start: int, end: int)

  /** One VEVENT block. */
  datatype Block = Block(
    uid: string,
    isException: bool,
    summary: Option<string>,
    recurring: bool,
    start: int,
    end: int,
    instances: seq<Instance>)

  /** `{ master, extras }`. */
  datatype Series = Series(master: Option<Block>, extras: seq<Block>)

  // ---------------------------------------------------------------------
  // Series grouping

  /** The UIDs in order of first appearance: the key order of the `series` Map. */
  function UidOrder(blocks: seq<Block>): seq<string>
  {
    if blocks == [] then []
    else
      var o := UidOrder(blocks[..|blocks| - 1]);
      if blocks[|blocks| - 1].uid in o then o else o + [blocks[|blocks| - 1].uid]
  }

  /** The last non-exception block with UID `u`. */
  function LastMaster(blocks: seq<Block>, u: string): Option<Block>
  {
    if blocks == [] then None
    else if blocks[|blocks| - 1].uid == u && !blocks[|blocks| - 1].isException then Some(blocks[|blocks| - 1])
    else LastMaster(blocks[..|blocks| - 1], u)
  }

  /** The exception blocks with UID `u`, in document order. */
  function Exceptions(blocks: seq<Block>, u: string): seq<Block>
  {
    if blocks == [] then []
    else
      var b := blocks[|blocks| - 1];
      Exceptions(blocks[..|blocks| - 1], u) + (if b.uid == u && b.isException then [b] else [])
  }

  /**
   * The grouping loop: one series per UID, created on its first block; an
   * exception is appended to `extras`, any other block replaces the master.
   * `order` is the Map's insertion order.
   */
  method GroupSeries(blocks: seq<Block>) returns (order: seq<string>, series: map<string, Series>)
    ensures order == UidOrder(blocks)
    ensures forall u :: u in series <==> u in order
    ensures forall u :: u in series ==> series[u] == Series(LastMaster(blocks, u), Exceptions(blocks, u))
  {
    order := [];
    series := map[];
    for i := 0 to |blocks|
      invariant order == UidOrder(blocks[..i])
      invariant forall u :: u in series <==> u in order
      invariant forall u :: u in series ==> series[u] == Series(LastMaster(blocks[..i], u), Exceptions(blocks[..i], u))
    {
      var v := blocks[i];
      assert blocks[..i + 1][..i] == blocks[..i];
      if v.uid !in series {
        UnseenUid(blocks[..i], v.uid);
        series := series[v.uid := Series(None, [])];
        order := order + [v.uid];
      }
      if v.isException {
        series := series[v.uid := series[v.uid].(extras := series[v.uid].extras + [v])];
      } else {
        series := series[v.uid := series[v.uid].(master := Some(v))];
      }
    }
    assert blocks[..|blocks|] == blocks;
  }

  /** A UID not yet in the series order has neither a master nor exceptions. */
  lemma {:induction false} UnseenUid(blocks: seq<Block>, u: string)
    requires u !in UidOrder(blocks)
    ensures LastMaster(blocks, u) == None && Exceptions(blocks, u) == []
  {
    if blocks != [] {
      UnseenUid(blocks[..|blocks| - 1], u);
    }
  }

  /** Every UID appears once in the series order, and only UIDs of blocks appear. */
  lemma {:induction false} UidOrderSpec(blocks: seq<Block>)
    ensures forall i, j :: 0 <= i < j < |UidOrder(blocks)| ==> UidOrder(blocks)[i] != UidOrder(blocks)[j]
    ensures forall u :: u in UidOrder(blocks) <==> exists i :: 0 <= i < |blocks| && blocks[i].uid == u
  {
    if blocks != [] {
      var p := blocks[..|blocks| - 1];
      UidOrderSpec(p);
      forall u ensures u in UidOrder(blocks) <==> exists i :: 0 <= i < |blocks| && blocks[i].uid == u {
        if exists i :: 0 <= i < |p| && p[i].uid == u {
          var i :| 0 <= i < |p| && p[i].uid == u;
          assert blocks[i].uid == u;
        }
        if exists i :: 0 <= i < |blocks| && blocks[i].uid == u {
          var i :| 0 <= i < |blocks| && blocks[i].uid == u;
          if i < |p| { assert p[i].uid == u; }
        }
      }
    }
  }

  /**
   * The master of UID `u` is the last non-exception block with that UID: it
   * is such a block, and no later block replaces it; there is none exactly
   * when no block with that UID is a non-exception.
   */
  lemma {:induction false} LastMasterSpec(blocks: seq<Block>, u: string)
    ensures LastMaster(blocks, u).Some? ==>
      exists i :: 0 <= i < |blocks| && blocks[i] == LastMaster(blocks, u).value
        && blocks[i].uid == u && !blocks[i].isException
        && forall j :: i < j < |blocks| ==> blocks[j].uid != u || blocks[j].isException
    ensures LastMaster(blocks, u).None? <==>
      forall i :: 0 <= i < |blocks| ==> blocks[i].uid != u || blocks[i].isException
  {
    if blocks != [] {
      var p := blocks[..|blocks| - 1];
      var b := blocks[|blocks| - 1];
      LastMasterSpec(p, u);
      if !(b.uid == u && !b.isException) {
        if LastMaster(p, u).Some? {
          var i :| 0 <= i < |p| && p[i] == LastMaster(p, u).value && p[i].uid == u && !p[i].isException
            && forall j :: i < j < |p| ==> p[j].uid != u || p[j].isException;
          assert blocks[i] == p[i];
          assert forall j :: i < j < |blocks| ==> blocks[j].uid != u || blocks[j].isException by {
            forall j | i < j < |blocks| ensures blocks[j].uid != u || blocks[j].isException {
              if j < |p| { assert blocks[j] == p[j]; }
            }
          }
        } else {
          forall i | 0 <= i < |blocks| ensures blocks[i].uid != u || blocks[i].isException {
            if i < |p| { assert blocks[i] == p[i]; }
          }
        }
      }
    }
  }

  /** The exceptions of a UID are exactly its exception blocks, in document order. */
  lemma {:induction false} ExceptionsSpec(a: seq<Block>, b: seq<Block>, u: string, x: Block)
    ensures Exceptions(a + b, u) == Exceptions(a, u) + Exceptions(b, u)
    ensures x in Exceptions(a, u) <==> x in a && x.uid == u && x.isException
    decreases |a| + |b|
  {
    if b == [] {
      assert a + b == a;
    } else {
      ExceptionsSpec(a, b[..|b| - 1], u, x);
      assert a + b == (a + b[..|b| - 1]) + [b[|b| - 1]];
    }
    if a != [] {
      ExceptionsSpec(a[..|a| - 1], [], u, x);
      assert a == a[..|a| - 1] + [a[|a| - 1]];
    }
  }

  // ---------------------------------------------------------------------
  // Expansion

  /**
   * The iterator values the loop hands to `push`: it stops at the first
   * value after the window's end and skips values before its start.
   */
  function Window(insts: seq<Instance>, rangeStart: int, rangeEnd: int): seq<Instance>
  {
    if insts == [] || insts[0].recurrenceStart > rangeEnd then []
    else (if insts[0].recurrenceStart < rangeStart then [] else [insts[0]]) + Window(insts[1..], rangeStart, rangeEnd)
  }

  /** The day pieces of each occurrence, one after the other. */
  function PiecesOfAll(insts: seq<Instance>, title: string): seq<Piece>
  {
    if insts == [] then [] else DayPieces(insts[0].start, insts[0].end, title) + PiecesOfAll(insts[1..], title)
  }

  /** The non-recurring test `e >= rangeStart && s <= rangeEnd`. */
  predicate Kept(start: int, end: int, rangeStart: int, rangeEnd: int)
  {
    end >= rangeStart && start <= rangeEnd
  }

  /** What one master contributes. */
  function MasterPieces(master: Block, rangeStart: int, rangeEnd: int): seq<Piece>
  {
    var title := DefaultTitle(master.summary);
    if master.recurring then PiecesOfAll(Window(master.instances, rangeStart, rangeEnd), title)
    else if Kept(master.start, master.end, rangeStart, rangeEnd) then DayPieces(master.start, master.end, title)
    else []
  }

  /** What one series contributes: nothing without a master. */
  function SeriesPieces(master: Option<Block>, rangeStart: int, rangeEnd: int): seq<Piece>
  {
    if master.None? then [] else MasterPieces(master.value, rangeStart, rangeEnd)
  }

  /** The pieces of the series named by `order`, one series after the other. */
  function ExpansionPieces(blocks: seq<Block>, order: seq<string>, rangeStart: int, rangeEnd: int): seq<Piece>
  {
    if order == [] then []
    else
      ExpansionPieces(blocks, order[..|order| - 1], rangeStart, rangeEnd)
      + SeriesPieces(LastMaster(blocks, order[|order| - 1]), rangeStart, rangeEnd)
  }

  /** The date-keyed map the whole expansion returns. */
  function Expanded(blocks: seq<Block>, rangeStart: int, rangeEnd: int): DayMap
  {
    AppendAll(map[], ExpansionPieces(blocks, UidOrder(blocks), rangeStart, rangeEnd))
  }

  /** Lines 49-64: split the occurrences of one master into `out`. */
  method ExpandMaster(out: DayMap, master: Block, rangeStart: int, rangeEnd: int) returns (r: DayMap)
    ensures r == AppendAll(out, MasterPieces(master, rangeStart, rangeEnd))
  {
    var title := DefaultTitle(master.summary);
    r := out;
    ghost var n;
    if master.recurring {
      var it := master.instances;
      var i := 0;
      while i < |it|
        invariant 0 <= i <= |it|
        invariant AppendAll(r, PiecesOfAll(Window(it[i..], rangeStart, rangeEnd), title))
          == AppendAll(out, PiecesOfAll(Window(it, rangeStart, rangeEnd), title))
      {
        var next := it[i];
        assert it[i..][1..] == it[i + 1..];
        if next.recurrenceStart > rangeEnd {
          assert Window(it[i..], rangeStart, rangeEnd) == [];
          break;
        }
        ghost var rest := Window(it[i + 1..], rangeStart, rangeEnd);
        assert Window(it[i..], rangeStart, rangeEnd)
          == (if next.recurrenceStart < rangeStart then [] else [next]) + rest;
        if next.recurrenceStart < rangeStart {
          assert [] + rest == rest;
          i := i + 1;
          continue;
        }
        assert ([next] + rest)[0] == next && ([next] + rest)[1..] == rest;
        AppendAllConcat(r, DayPieces(next.start, next.end, title), PiecesOfAll(rest, title));
        r, n := Push(r, next.start, next.end, title);
        i := i + 1;
      }
      assert it[0..] == it;
    } else {
      var s := master.start;
      var e := master.end;
      if e >= rangeStart && s <= rangeEnd {
        r, n := Push(r, s, e, title);
      }
    }
  }

  /**
   * `expandIcsToMap`: group the blocks, then expand each series that has a
   * master, in the Map's order, into one date-keyed map.
   */
  method ExpandIcsToMap(blocks: seq<Block>, rangeStart: int, rangeEnd: int) returns (out: DayMap)
    ensures out == Expanded(blocks, rangeStart, rangeEnd)
  {
    var order, series := GroupSeries(blocks);
    out := map[];
    for k := 0 to |order|
      invariant out == AppendAll(map[], ExpansionPieces(blocks, order[..k], rangeStart, rangeEnd))
    {
      assert order[..k + 1][..k] == order[..k];
      var master := series[order[k]].master;
      AppendAllConcat(map[], ExpansionPieces(blocks, order[..k], rangeStart, rangeEnd), SeriesPieces(master, rangeStart, rangeEnd));
      if master.None? {
        continue;
      }
      out := ExpandMaster(out, master.value, rangeStart, rangeEnd);
    }
    assert order[..|order|] == order;
  }

  // ---------------------------------------------------------------------
  // Properties of the expansion

  /**
   * An iterator value reaches `push` exactly when it lies in the window,
   * both bounds included, and no earlier value was past the window's end.
   */
  lemma {:induction false} WindowMember(insts: seq<Instance>, rangeStart: int, rangeEnd: int, x: Instance)
    ensures x in Window(insts, rangeStart, rangeEnd) <==>
      exists i :: 0 <= i < |insts| && insts[i] == x && rangeStart <= x.recurrenceStart <= rangeEnd
        && forall j :: 0 <= j < i ==> insts[j].recurrenceStart <= rangeEnd
  {
    if insts != [] && insts[0].recurrenceStart <= rangeEnd {
      var t := insts[1..];
      WindowMember(t, rangeStart, rangeEnd, x);
      if x in Window(t, rangeStart, rangeEnd) {
        var i :| 0 <= i < |t| && t[i] == x && rangeStart <= x.recurrenceStart <= rangeEnd
          && forall j :: 0 <= j < i ==> t[j].recurrenceStart <= rangeEnd;
        assert insts[i + 1] == x;
        assert forall j :: 0 <= j < i + 1 ==> insts[j].recurrenceStart <= rangeEnd by {
          forall j | 0 <= j < i + 1 ensures insts[j].recurrenceStart <= rangeEnd {
            if j > 0 { assert insts[j] == t[j - 1]; }
          }
        }
      }
      if exists i :: (0 <= i < |insts| && insts[i] == x && rangeStart <= x.recurrenceStart <= rangeEnd
        && forall j :: 0 <= j < i ==> insts[j].recurrenceStart <= rangeEnd) {
        var i :| 0 <= i < |insts| && insts[i] == x && rangeStart <= x.recurrenceStart <= rangeEnd
          && forall j :: 0 <= j < i ==> insts[j].recurrenceStart <= rangeEnd;
        if i > 0 {
          assert t[i - 1] == x;
          assert forall j :: 0 <= j < i - 1 ==> t[j].recurrenceStart <= rangeEnd by {
            forall j | 0 <= j < i - 1 ensures t[j].recurrenceStart <= rangeEnd {
              assert t[j] == insts[j + 1];
            }
          }
        }
      }
    }
  }

  /**
   * Enumeration stops at the first value past the window's end: nothing
   * after a value past `rangeEnd` is ever consulted, whatever `rangeStart` is.
   */
  lemma {:induction false} WindowStopsAtEnd(insts: seq<Instance>, rangeStart: int, rangeEnd: int, i: int)
    requires 0 <= i < |insts| && insts[i].recurrenceStart > rangeEnd
    ensures Window(insts, rangeStart, rangeEnd) == Window(insts[..i], rangeStart, rangeEnd)
  {
    if i > 0 && insts[0].recurrenceStart <= rangeEnd {
      WindowStopsAtEnd(insts[1..], rangeStart, rangeEnd, i - 1);
      assert insts[..i][1..] == insts[1..][..i - 1];
    }
  }

  predicate Between(lo: int, t: int, hi: int) { lo <= t <= hi }

  /**
   * For a master that does not end before it starts and a window that does
   * not end before it starts, the non-recurring test holds exactly when the
   * two share an instant; both bounds count.
   */
  lemma KeptIffOverlap(start: int, end: int, rangeStart: int, rangeEnd: int)
    requires start <= end && rangeStart <= rangeEnd
    ensures Kept(start, end, rangeStart, rangeEnd) <==>
      exists t :: Between(start, t, end) && Between(rangeStart, t, rangeEnd)
  {
    if Kept(start, end, rangeStart, rangeEnd) {
      var t := Max(start, rangeStart);
      assert Between(start, t, end) && Between(rangeStart, t, rangeEnd);
    }
  }

  lemma {:induction false} PiecesOfAllFrom(insts: seq<Instance>, title: string, p: Piece)
    requires p in PiecesOfAll(insts, title)
    ensures exists x :: x in insts && PlacedIn(p.1, p.0, x.start, x.end) && p.1.title == title
  {
    var x := insts[0];
    if p in DayPieces(x.start, x.end, title) {
      DayPiecesPlaced(x.start, x.end, title);
    } else {
      PiecesOfAllFrom(insts[1..], title, p);
      var y :| y in insts[1..] && PlacedIn(p.1, p.0, y.start, y.end) && p.1.title == title;
    }
  }

  /** A fragment comes from master `b`: it lies inside an occurrence of `b` the window admits, and carries `b`'s title. */
  predicate FromMaster(b: Block, d: int, f: Fragment, rangeStart: int, rangeEnd: int)
  {
    && f.title == DefaultTitle(b.summary)
    && (if b.recurring then
          exists x :: x in b.instances && rangeStart <= x.recurrenceStart <= rangeEnd && PlacedIn(f, d, x.start, x.end)
        else
          Kept(b.start, b.end, rangeStart, rangeEnd) && PlacedIn(f, d, b.start, b.end))
  }

  lemma MasterPiecesFrom(b: Block, rangeStart: int, rangeEnd: int, p: Piece)
    requires p in MasterPieces(b, rangeStart, rangeEnd)
    ensures FromMaster(b, p.0, p.1, rangeStart, rangeEnd)
  {
    var title := DefaultTitle(b.summary);
    if b.recurring {
      var w := Window(b.instances, rangeStart, rangeEnd);
      PiecesOfAllFrom(w, title, p);
      var x :| x in w && PlacedIn(p.1, p.0, x.start, x.end) && p.1.title == title;
      WindowMember(b.instances, rangeStart, rangeEnd, x);
    } else {
      DayPiecesPlaced(b.start, b.end, title);
    }
  }

  lemma {:induction false} ExpansionPiecesFrom(blocks: seq<Block>, order: seq<string>, rangeStart: int, rangeEnd: int, p: Piece)
    requires p in ExpansionPieces(blocks, order, rangeStart, rangeEnd)
    ensures exists b :: (b in blocks && !b.isException && LastMaster(blocks, b.uid) == Some(b)
      && FromMaster(b, p.0, p.1, rangeStart, rangeEnd))
  {
    var u := order[|order| - 1];
    if p in ExpansionPieces(blocks, order[..|order| - 1], rangeStart, rangeEnd) {
      ExpansionPiecesFrom(blocks, order[..|order| - 1], rangeStart, rangeEnd, p);
    } else {
      var m := LastMaster(blocks, u);
      LastMasterSpec(blocks, u);
      var b := m.value;
      MasterPiecesFrom(b, rangeStart, rangeEnd, p);
      var i :| 0 <= i < |blocks| && blocks[i] == b && b.uid == u && !b.isException
        && forall j :: i < j < |blocks| ==> blocks[j].uid != u || blocks[j].isException;
    }
  }

  /**
   * Every fragment the expansion files under a day lies within that day and
   * is not empty, and comes from the master of its series (the last
   * non-exception block with its UID; a series without one contributes
   * nothing): it carries that master's summary or "Event", and lies inside
   * an occurrence whose iterator value is in the window, or, for a
   * non-recurring master, inside the master itself when it meets the window.
   */
  lemma ExpansionPlaced(blocks: seq<Block>, rangeStart: int, rangeEnd: int, d: int, f: Fragment)
    requires f in Get(Expanded(blocks, rangeStart, rangeEnd), d)
    ensures exists b :: (b in blocks && !b.isException && LastMaster(blocks, b.uid) == Some(b)
      && FromMaster(b, d, f, rangeStart, rangeEnd))
    ensures DayStart(d) <= f.start < f.end <= DayEnd(d)
  {
    var ps := ExpansionPieces(blocks, UidOrder(blocks), rangeStart, rangeEnd);
    AppendAllSpec(map[], ps);
    OnDayMember(ps, d, f);
    ExpansionPiecesFrom(blocks, UidOrder(blocks), rangeStart, rangeEnd, (d, f));
  }
}
