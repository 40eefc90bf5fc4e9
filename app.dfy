/**
 * The dashboard state of App.jsx and what it derives from it for the
 * selected day: the day's events and tasks, busy minutes (clamped, merged,
 * summed), planned minutes, the timed-task intervals, and the per-day task
 * map updates `addTask` and `removeTask`. Also `groupByDate`, which files a
 * flat event list by day with the same cursor loop as the importer.
 *
 * The selected date key is `None` when it is the empty string "".
 */
module App {
  import opened Wrappers
  import opened Calendar
  import opened Intervals

  /** A task as `TasksPanel` emits it; absent or non-numeric numbers are `None`. */
  datatype Task = Task(id: string, name: string, minutes: Option<int>, startMin: Option<int>)

  /** An event of the flat list `groupByDate` takes. */
  datatype Event = Event(start: int, end: int, title: Option<string>)

  type TaskMap = map<int, seq<Task>>

  /** `selectedDateISO ? eventsByDate[selectedDateISO] || [] : []`. */
  function DayEvents(eventsByDate: DayMap, selected: Option<int>): seq<Fragment>
  {
    if selected.None? then [] else Get(eventsByDate, selected.value)
  }

  /** `selectedDateISO ? tasksByDate[selectedDateISO] || [] : []`. */
  function DayTasks(tasksByDate: TaskMap, selected: Option<int>): seq<Task>
  {
    if selected.None? then [] else Get(tasksByDate, selected.value)
  }

  /** The `busyMinutes` memo. */
  function BusyMinutes(eventsByDate: DayMap, selected: Option<int>): int
  {
    if selected.None? then 0
    else TotalMinutes(Merged(ClampToDay(DayEvents(eventsByDate, selected), selected)))
  }

  /** The `dayIntervals` memo handed to the timeline. */
  function DayIntervals(eventsByDate: DayMap, selected: Option<int>): seq<Interval>
  {
    Merged(ClampToDay(DayEvents(eventsByDate, selected), selected))
  }

  lemma {:induction false} CoveredSetWithinDay(s: seq<Interval>)
    requires forall i :: 0 <= i < |s| ==> InDay(s[i])
    ensures CoveredSet(s) <= MinuteRange(0, MinutesPerDay)
  {
    MinuteRangeSpec(0, MinutesPerDay);
    if s != [] {
      var p := s[..|s| - 1];
      assert forall i :: 0 <= i < |p| ==> InDay(p[i]) by {
        forall i | 0 <= i < |p| ensures InDay(p[i]) { assert p[i] == s[i]; }
      }
      CoveredSetWithinDay(p);
      MinuteRangeSpec(Last(s).startMin, Last(s).endMin);
      assert InDay(s[|s| - 1]);
      forall m | m in MinuteRange(Last(s).startMin, Last(s).endMin) ensures m in MinuteRange(0, MinutesPerDay) {
      }
    }
  }

  /**
   * Busy minutes are the number of distinct minutes of the selected day that
   * some event covers, so they lie between 0 and 1440.
   */
  lemma BusyMinutesBounds(eventsByDate: DayMap, selected: Option<int>)
    ensures selected.Some? ==>
      BusyMinutes(eventsByDate, selected) == |CoveredSet(ClampToDay(DayEvents(eventsByDate, selected), selected))|
    ensures 0 <= BusyMinutes(eventsByDate, selected) <= MinutesPerDay
  {
    if selected.Some? {
      var ivs := ClampToDay(DayEvents(eventsByDate, selected), selected);
      ClampToDayInDay(DayEvents(eventsByDate, selected), selected);
      MergedTotal(ivs);
      CoveredSetWithinDay(ivs);
      MinuteRangeSpec(0, MinutesPerDay);
      SubsetSize(CoveredSet(ivs), MinuteRange(0, MinutesPerDay));
    }
  }

  lemma SubsetSize(a: set<int>, b: set<int>)
    requires a <= b
    ensures |a| <= |b|
  {
    assert b == a + (b - a);
  }

  /**
   * The timeline's calendar intervals lie within the day, are sorted, do
   * not touch one another, and sum to the busy minutes.
   */
  lemma DayIntervalsShape(eventsByDate: DayMap, selected: Option<int>)
    ensures forall i :: 0 <= i < |DayIntervals(eventsByDate, selected)| ==> InDay(DayIntervals(eventsByDate, selected)[i])
    ensures SortedByStart(DayIntervals(eventsByDate, selected)) && Separated(DayIntervals(eventsByDate, selected))
    ensures TotalMinutes(DayIntervals(eventsByDate, selected)) == BusyMinutes(eventsByDate, selected)
  {
    var ivs := ClampToDay(DayEvents(eventsByDate, selected), selected);
    ClampToDayInDay(DayEvents(eventsByDate, selected), selected);
    MergedSortedSeparated(ivs);
    MergedInDay(ivs);
    if selected.None? {
      assert Merged([]) == [] by { assert SortByStart([]) == []; }
    }
  }

  /** Merging intervals of the day gives intervals of the day. */
  lemma MergedInDay(s: seq<Interval>)
    requires forall i :: 0 <= i < |s| ==> InDay(s[i])
    ensures forall i :: 0 <= i < |Merged(s)| ==> InDay(Merged(s)[i])
  {
    assert Within(s, 0, MinutesPerDay);
    MergedNonEmpty(s);
    MergedWithin(s, 0, MinutesPerDay);
  }

  // ---------------------------------------------------------------------
  // Tasks

  /** `Number(t.minutes) || 0`. */
  function TaskMinutes(t: Task): int
  {
    if t.minutes.Some? then t.minutes.value else 0
  }

  /** `tasks.reduce((s, t) => s + (Number(t.minutes) || 0), 0)`. */
  function PlannedMinutes(tasks: seq<Task>): int
  {
    if tasks == [] then 0 else PlannedMinutes(tasks[..|tasks| - 1]) + TaskMinutes(tasks[|tasks| - 1])
  }

  /** Planned minutes add up over concatenation; a task without minutes counts 0. */
  lemma {:induction false} PlannedMinutesAppend(a: seq<Task>, b: seq<Task>)
    ensures PlannedMinutes(a + b) == PlannedMinutes(a) + PlannedMinutes(b)
    decreases |b|
  {
    if b == [] {
      assert a + b == a;
    } else {
      PlannedMinutesAppend(a, b[..|b| - 1]);
      assert a + b == (a + b[..|b| - 1]) + [b[|b| - 1]];
    }
  }

  /** A task takes part in the timeline when it has a start and a positive duration. */
  predicate Timed(t: Task)
  {
    t.startMin.Some? && t.minutes.Some? && t.minutes.value > 0
  }

  /** `[max(0, startMin), min(1440, startMin + minutes)]`. */
  function TaskInterval(t: Task): Interval
    requires Timed(t)
  {
    Interval(Max(0, t.startMin.value), Min(MinutesPerDay, t.startMin.value + t.minutes.value))
  }

  /** What one task contributes to `taskIntervals`: its interval, when it is timed and not empty after clamping. */
  function TaskSlot(t: Task): seq<Interval>
  {
    if Timed(t) && NonEmpty(TaskInterval(t)) then [TaskInterval(t)] else []
  }

  /** The `taskIntervals` memo: filter, map, drop the empty ones. */
  function TaskIntervals(tasks: seq<Task>): seq<Interval>
  {
    if tasks == [] then [] else TaskSlot(tasks[0]) + TaskIntervals(tasks[1..])
  }

  /**
   * A task interval is the clamp of a timed task that is not empty after
   * clamping, and every such task gives one; each lies within the day.
   */
  lemma {:induction false} TaskIntervalsMember(tasks: seq<Task>, iv: Interval)
    ensures iv in TaskIntervals(tasks) <==>
      exists i :: 0 <= i < |tasks| && Timed(tasks[i]) && TaskInterval(tasks[i]) == iv && NonEmpty(iv)
    ensures iv in TaskIntervals(tasks) ==> InDay(iv)
  {
    if tasks != [] {
      TaskIntervalsMember(tasks[1..], iv);
      if exists i :: 0 <= i < |tasks| && Timed(tasks[i]) && TaskInterval(tasks[i]) == iv && NonEmpty(iv) {
        var i :| 0 <= i < |tasks| && Timed(tasks[i]) && TaskInterval(tasks[i]) == iv && NonEmpty(iv);
        if i > 0 { assert tasks[1..][i - 1] == tasks[i]; }
      }
    }
  }

  /** Task intervals keep task order: they distribute over concatenation. */
  lemma {:induction false} TaskIntervalsAppend(a: seq<Task>, b: seq<Task>)
    ensures TaskIntervals(a + b) == TaskIntervals(a) + TaskIntervals(b)
  {
    if a == [] {
      assert a + b == b;
    } else {
      var ab := a + b;
      assert ab[0] == a[0] && ab[1..] == a[1..] + b;
      calc {
        TaskIntervals(ab);
        TaskSlot(a[0]) + TaskIntervals(a[1..] + b);
        { TaskIntervalsAppend(a[1..], b); }
        TaskSlot(a[0]) + (TaskIntervals(a[1..]) + TaskIntervals(b));
        TaskIntervals(a) + TaskIntervals(b);
      }
    }
  }

  /** `addTask`: append to the selected day's list; nothing when no day is selected. */
  function AddTask(tasksByDate: TaskMap, selected: Option<int>, task: Task): (r: TaskMap)
    ensures selected.None? ==> r == tasksByDate
    ensures selected.Some? ==>
      && r.Keys == tasksByDate.Keys + {selected.value}
      && r[selected.value] == Get(tasksByDate, selected.value) + [task]
      && forall d :: d in tasksByDate && d != selected.value ==> r[d] == tasksByDate[d]
  {
    if selected.None? then tasksByDate
    else tasksByDate[selected.value := Get(tasksByDate, selected.value) + [task]]
  }

  /** `filter((t) => t.id !== taskId)`. */
  function WithoutId(tasks: seq<Task>, id: string): seq<Task>
  {
    if tasks == [] then []
    else (if tasks[0].id != id then [tasks[0]] else []) + WithoutId(tasks[1..], id)
  }

  lemma {:induction false} WithoutIdMember(tasks: seq<Task>, id: string, t: Task)
    ensures t in WithoutId(tasks, id) <==> t in tasks && t.id != id
    ensures |WithoutId(tasks, id)| <= |tasks|
  {
    if tasks != [] {
      WithoutIdMember(tasks[1..], id, t);
      assert tasks == [tasks[0]] + tasks[1..];
    }
  }

  /**
   * `filter` keeps the survivors in their order: filtering distributes over
   * concatenation, and a single task survives alone exactly when its id differs.
   */
  lemma {:induction false} WithoutIdAppend(a: seq<Task>, b: seq<Task>, id: string)
    ensures WithoutId(a + b, id) == WithoutId(a, id) + WithoutId(b, id)
  {
    if a == [] {
      assert a + b == b;
    } else {
      var keep := if a[0].id != id then [a[0]] else [];
      WithoutIdAppend(a[1..], b, id);
      assert (a + b)[0] == a[0];
      assert (a + b)[1..] == a[1..] + b;
      calc {
        WithoutId(a + b, id);
        keep + WithoutId(a[1..] + b, id);
        keep + (WithoutId(a[1..], id) + WithoutId(b, id));
        (keep + WithoutId(a[1..], id)) + WithoutId(b, id);
        WithoutId(a, id) + WithoutId(b, id);
      }
    }
  }

  lemma WithoutIdSingle(t: Task, id: string)
    ensures WithoutId([t], id) == if t.id != id then [t] else []
  {
    assert [t][1..] == [];
  }

  /** `removeTask`: drop every task with that id from the selected day only. */
  function RemoveTask(tasksByDate: TaskMap, selected: Option<int>, id: string): (r: TaskMap)
    ensures selected.None? ==> r == tasksByDate
    ensures selected.Some? ==>
      && r.Keys == tasksByDate.Keys + {selected.value}
      && forall d :: d in tasksByDate && d != selected.value ==> r[d] == tasksByDate[d]
  {
    if selected.None? then tasksByDate
    else tasksByDate[selected.value := WithoutId(Get(tasksByDate, selected.value), id)]
  }

  /** `filter((t) => t.id === taskId)`: the tasks `removeTask` drops. */
  function WithId(tasks: seq<Task>, id: string): seq<Task>
  {
    if tasks == [] then []
    else (if tasks[0].id == id then [tasks[0]] else []) + WithId(tasks[1..], id)
  }

  /** The planned minutes of a list split into those of its survivors and those of the dropped tasks. */
  lemma {:induction false} PlannedMinutesSplit(tasks: seq<Task>, id: string)
    ensures PlannedMinutes(tasks) == PlannedMinutes(WithoutId(tasks, id)) + PlannedMinutes(WithId(tasks, id))
  {
    if tasks != [] {
      var t0 := tasks[0];
      PlannedMinutesSplit(tasks[1..], id);
      assert tasks == [t0] + tasks[1..];
      PlannedMinutesAppend([t0], tasks[1..]);
      assert [t0][..0] == [];
      var keep := if t0.id != id then [t0] else [];
      var drop := if t0.id == id then [t0] else [];
      PlannedMinutesAppend(keep, WithoutId(tasks[1..], id));
      PlannedMinutesAppend(drop, WithId(tasks[1..], id));
    }
  }

  /**
   * After `removeTask` the selected day holds exactly the tasks it held
   * whose id differs, and its planned minutes fall by those of the tasks
   * with that id.
   */
  lemma RemoveTaskSpec(tasksByDate: TaskMap, d: int, id: string, t: Task)
    ensures t in DayTasks(RemoveTask(tasksByDate, Some(d), id), Some(d)) <==>
      t in DayTasks(tasksByDate, Some(d)) && t.id != id
    ensures PlannedMinutes(DayTasks(RemoveTask(tasksByDate, Some(d), id), Some(d)))
      == PlannedMinutes(DayTasks(tasksByDate, Some(d))) - PlannedMinutes(WithId(DayTasks(tasksByDate, Some(d)), id))
  {
    WithoutIdMember(Get(tasksByDate, d), id, t);
    PlannedMinutesSplit(Get(tasksByDate, d), id);
  }

  /** After `addTask` the selected day's planned minutes grow by the task's minutes. */
  lemma AddTaskPlanned(tasksByDate: TaskMap, d: int, task: Task)
    ensures PlannedMinutes(DayTasks(AddTask(tasksByDate, Some(d), task), Some(d)))
      == PlannedMinutes(DayTasks(tasksByDate, Some(d))) + TaskMinutes(task)
  {
    var old_ := Get(tasksByDate, d);
    PlannedMinutesAppend(old_, [task]);
    assert [task][..0] == [];
  }

  // ---------------------------------------------------------------------
  // groupByDate

  /** The pieces of each event, one event after the other. */
  function EventPieces(events: seq<Event>): seq<Piece>
  {
    if events == [] then []
    else
      var ev := events[|events| - 1];
      EventPieces(events[..|events| - 1]) + DayPieces(ev.start, ev.end, DefaultTitle(ev.title))
  }

  /** `groupByDate`: split every event by day into a fresh date-keyed map. */
  method GroupByDate(events: seq<Event>) returns (m: DayMap)
    ensures m == AppendAll(map[], EventPieces(events))
  {
    m := map[];
    for i := 0 to |events|
      invariant m == AppendAll(map[], EventPieces(events[..i]))
    {
      var ev := events[i];
      ghost var n;
      m, n := Push(m, ev.start, ev.end, DefaultTitle(ev.title));
      assert events[..i + 1][..i] == events[..i];
      AppendAllConcat(map[], EventPieces(events[..i]), DayPieces(ev.start, ev.end, DefaultTitle(ev.title)));
    }
    assert events[..|events|] == events;
  }

  lemma {:induction false} EventPiecesFrom(events: seq<Event>, p: Piece)
    requires p in EventPieces(events)
    ensures exists ev :: ev in events && PlacedIn(p.1, p.0, ev.start, ev.end) && p.1.title == DefaultTitle(ev.title)
  {
    var ev := events[|events| - 1];
    var prefix := events[..|events| - 1];
    if p in EventPieces(prefix) {
      EventPiecesFrom(prefix, p);
      var e :| e in prefix && PlacedIn(p.1, p.0, e.start, e.end) && p.1.title == DefaultTitle(e.title);
      assert e in events;
    } else {
      DayPiecesPlaced(ev.start, ev.end, DefaultTitle(ev.title));
    }
  }

  /**
   * Every fragment `groupByDate` files under a day lies within that day's
   * [00:00, 23:59:59.999] and within the event it came from, is not empty,
   * and carries that event's title or "Event".
   */
  lemma GroupByDatePlaced(events: seq<Event>, d: int, f: Fragment)
    requires f in Get(AppendAll(map[], EventPieces(events)), d)
    ensures exists ev :: ev in events && PlacedIn(f, d, ev.start, ev.end) && f.title == DefaultTitle(ev.title)
    ensures f.title != ""
  {
    AppendAllSpec(map[], EventPieces(events));
    OnDayMember(EventPieces(events), d, f);
    EventPiecesFrom(events, (d, f));
  }
}
