/**
 * AllocationPie.jsx: how the selected day's 1440 minutes are split between
 * calendar busy time, planned task time and free time, the three slices of
 * the pie and their colours; and the unfloored free figure the header
 * (App.jsx) and the caption under the pie both show.
 */
module AllocationPie {
  import opened Wrappers
  import opened Calendar

  /** One `{ name, value }` entry of `data`. */
  datatype Slice = Slice(name: string, value: int)

  /** `COLORS`: rose, sky, emerald. */
  const Colors: seq<string> := ["#f43f5e", "#0ea5e9", "#10b981"]

  /** `free`: the minutes left in the day, floored at 0. */
  function Free(busy: int, tasks: int): int
  {
    Max(0, MinutesPerDay - busy - tasks)
  }

  /** `data`: the three slices, in the order Busy, Tasks, Free. */
  function Data(busy: int, tasks: int): seq<Slice>
  {
    [Slice("Busy (Calendar)", busy), Slice("Tasks (Planned)", tasks), Slice("Free", Free(busy, tasks))]
  }

  /** The fill of the `i`-th cell: `COLORS[i % COLORS.length]`. */
  function CellColor(i: nat): string
  {
    Colors[i % |Colors|]
  }

  /** The fills of the cells `data.map` renders, one per slice. */
  function Cells(data: seq<Slice>): seq<string>
  {
    seq(|data|, i requires 0 <= i < |data| => CellColor(i))
  }

  function SliceSum(data: seq<Slice>): int
  {
    if data == [] then 0 else data[0].value + SliceSum(data[1..])
  }

  /** The free figure the header and the pie's caption show: `24 * 60 - busyMinutes - tasksMinutes`, not floored. */
  function HeaderFree(busy: int, tasks: int): int
  {
    MinutesPerDay - busy - tasks
  }

  /**
   * `free` is never negative: it is what is left of the day when busy and
   * planned time fit in it, and 0 when they do not.
   */
  lemma FreeSpec(busy: int, tasks: int)
    ensures Free(busy, tasks) >= 0
    ensures busy + tasks <= MinutesPerDay ==> Free(busy, tasks) == MinutesPerDay - busy - tasks
    ensures busy + tasks >= MinutesPerDay ==> Free(busy, tasks) == 0
  {
  }

  /**
   * Three slices, Busy, Tasks and Free in that order, the first two carrying
   * the figures they are given unchanged; the cells take the three colours
   * in order, slice `i` coloured `COLORS[i mod 3]`.
   */
  lemma DataShape(busy: int, tasks: int)
    ensures |Data(busy, tasks)| == 3
    ensures Data(busy, tasks)[0] == Slice("Busy (Calendar)", busy)
    ensures Data(busy, tasks)[1] == Slice("Tasks (Planned)", tasks)
    ensures Data(busy, tasks)[2] == Slice("Free", Free(busy, tasks))
    ensures Cells(Data(busy, tasks)) == Colors
    ensures forall i :: 0 <= i < |Data(busy, tasks)| ==> Cells(Data(busy, tasks))[i] == Colors[i % 3]
  {
  }

  /**
   * When busy and planned time fit in the day the three slices make up
   * exactly the day; when they overflow it the pie shows more than a day.
   */
  lemma {:induction false} DataSum(busy: int, tasks: int)
    ensures busy + tasks <= MinutesPerDay ==> SliceSum(Data(busy, tasks)) == MinutesPerDay
    ensures busy + tasks > MinutesPerDay ==> SliceSum(Data(busy, tasks)) == busy + tasks
  {
    var d := Data(busy, tasks);
    assert d[1..][1..][1..] == [];
    assert SliceSum(d[1..][1..]) == Free(busy, tasks);
    assert SliceSum(d[1..]) == tasks + Free(busy, tasks);
  }

  /**
   * The header's free figure agrees with the pie's while the day is not
   * overbooked, and is negative (where the pie shows 0) once it is.
   */
  lemma HeaderFreeVsPie(busy: int, tasks: int)
    ensures Free(busy, tasks) == Max(0, HeaderFree(busy, tasks))
    ensures busy + tasks > MinutesPerDay <==> HeaderFree(busy, tasks) < 0
    ensures HeaderFree(1000, 600) == -160 && Free(1000, 600) == 0
  {
  }
}
