/**
 * The hour-slot allocation engine of the quiz screen (components/Quizz.tsx).
 * A day is `SlotCount` slots, each holding the index of a task in the
 * configuration. The slots are seeded from the tasks' `percent` fields, painted
 * one at a time by a drag over the slot strip, and counted per task on submit.
 */
module Quizz {
  import opened Wrappers
  import opened Model
  import Jira

  /** Slots in a day: the 8 work hours, a literal in the source. */
  const SlotCount: nat := 8

  // ---------------------------------------------------------------------------
  // Integer arithmetic the slot computations rest on
  // ---------------------------------------------------------------------------

  lemma MulMonotone(a: int, b: int, w: int)
    requires a <= b && w > 0
    ensures a * w <= b * w
  {
    assert b * w - a * w == (b - a) * w;
  }

  /** Cancelling a positive factor from a strict inequality. */
  lemma MulCancelLess(a: int, b: int, w: int)
    requires w > 0 && a * w < b * w
    ensures a < b
  {
    if b <= a {
      MulMonotone(b, a, w);
    }
  }

  /** Integer division by a positive divisor rounds down: `i` is the floor of `a / w`. */
  lemma DivFloor(a: int, w: int)
    requires w > 0
    ensures (a / w) * w <= a < (a / w + 1) * w
  {
    var q, r := a / w, a % w;
    assert a == q * w + r && 0 <= r < w;
    assert (q + 1) * w == q * w + w;
  }

  /** At most one integer `i` has `i * w <= a < (i + 1) * w`. */
  lemma FloorUnique(a: int, w: int, i: int, j: int)
    requires w > 0
    requires i * w <= a < (i + 1) * w
    requires j * w <= a < (j + 1) * w
    ensures i == j
  {
    if i < j {
      MulMonotone(i + 1, j, w);
    } else if j < i {
      MulMonotone(j + 1, i, w);
    }
  }

  // ---------------------------------------------------------------------------
  // Seeding the slots from the tasks' percent fields (Quizz.tsx:68-84)
  // ---------------------------------------------------------------------------

  /** `n` copies of `v`. */
  function Repeat(v: int, n: nat): (r: seq<int>)
    ensures |r| == n
    ensures forall k :: 0 <= k < n ==> r[k] == v
  {
    if n == 0 then [] else Repeat(v, n - 1) + [v]
  }

  /**
   * How many slots a task's `percent` seeds: the number of naturals `i` with
   * `i < percent * 8`, so `ceil(percent * 8)` for a positive percent, and none
   * for an absent, zero or negative one.
   */
  function SeedCount(percent: Option<Ratio>): (c: nat)
    ensures percent.None? || percent.value.num <= 0 ==> c == 0
    ensures percent.Some? && percent.value.num > 0 ==>
      (c - 1) * percent.value.den < SlotCount * percent.value.num <= c * percent.value.den
  {
    if percent.None? || percent.value.num <= 0 then 0
    else
      var p := percent.value;
      var a := SlotCount * p.num + p.den - 1;
      DivFloor(a, p.den);
      assert (a / p.den - 1) * p.den == (a / p.den) * p.den - p.den;
      a / p.den
  }

  /** One more turn of the counting loop stays within the seed count. */
  lemma SeedLoopStep(p: Ratio, i: nat)
    requires i <= SeedCount(Some(p)) && i * p.den < SlotCount * p.num
    ensures i < SeedCount(Some(p))
  {
    var c := SeedCount(Some(p));
    if p.num > 0 {
      MulCancelLess(i, c, p.den);
    }
  }

  /** When the counting loop stops, it has pushed exactly the seed count. */
  lemma SeedLoopExit(p: Ratio, i: nat)
    requires p.num != 0
    requires i <= SeedCount(Some(p)) && !(i * p.den < SlotCount * p.num)
    ensures i == SeedCount(Some(p))
  {
    var c := SeedCount(Some(p));
    if p.num > 0 {
      MulCancelLess(c - 1, i, p.den);
    }
  }

  /**
   * The slots the tasks ask for, before truncation: for each task in order,
   * `SeedCount(percent)` copies of its index (the `flatMap` of the source).
   */
  function Layout(tasks: seq<Task>): (r: seq<int>)
    ensures forall k :: 0 <= k < |r| ==> 0 <= r[k] < |tasks|
    ensures forall k, l :: 0 <= k <= l < |r| ==> r[k] <= r[l]
  {
    if tasks == [] then []
    else
      var init := Layout(tasks[..|tasks| - 1]);
      var rep := Repeat(|tasks| - 1, SeedCount(tasks[|tasks| - 1].percent));
      assert forall k :: 0 <= k < |init| ==> (init + rep)[k] == init[k];
      assert forall k :: |init| <= k < |init| + |rep| ==> (init + rep)[k] == rep[k - |init|];
      init + rep
  }

  /**
   * The initial slots: the layout cut to `SlotCount` and padded with index 0.
   * Always exactly `SlotCount` slots, however much the tasks ask for.
   */
  function Seeded(tasks: seq<Task>): (r: seq<int>)
    ensures |r| == SlotCount
    ensures forall k :: 0 <= k < SlotCount ==>
      r[k] == if k < |Layout(tasks)| then Layout(tasks)[k] else 0
  {
    var flat := Layout(tasks);
    var kept := if |flat| <= SlotCount then flat else flat[..SlotCount];
    kept + Repeat(0, SlotCount - |kept|)
  }

  /**
   * The seeding code: a counting loop per task, the concatenation, the cut to
   * `SlotCount` and the padding loop.
   */
  method DefaultHours(tasks: seq<Task>) returns (hours: seq<int>)
    ensures hours == Seeded(tasks)
  {
    var flat: seq<int> := [];
    for index := 0 to |tasks|
      invariant flat == Layout(tasks[..index])
    {
      var t := tasks[index];
      var h: seq<int> := [];
      if t.percent.Some? && t.percent.value.num != 0 {
        var p := t.percent.value;
        var i: nat := 0;
        while i * p.den < SlotCount * p.num
          invariant i <= SeedCount(t.percent)
          invariant h == Repeat(index, i)
          decreases SeedCount(t.percent) - i
        {
          SeedLoopStep(p, i);
          h := h + [index];
          i := i + 1;
        }
        SeedLoopExit(p, i);
      }
      assert h == Repeat(index, SeedCount(t.percent));
      assert tasks[..index + 1][..index] == tasks[..index];
      flat := flat + h;
    }
    assert tasks[..|tasks|] == tasks;
    hours := if |flat| <= SlotCount then flat else flat[..SlotCount];
    ghost var kept := hours;
    for i := |hours| to SlotCount
      invariant |hours| == i
      invariant hours == kept + Repeat(0, i - |kept|)
    {
      hours := hours + [0];
    }
  }

  /** With at least one task, every seeded slot holds a valid task index. */
  lemma SeededInRange(tasks: seq<Task>)
    requires |tasks| > 0
    ensures forall k :: 0 <= k < SlotCount ==> 0 <= Seeded(tasks)[k] < |tasks|
  {
  }

  /** Each task's index occurs in the layout exactly as often as its percent asks. */
  lemma {:induction false} LayoutCount(tasks: seq<Task>, i: nat)
    requires i < |tasks|
    ensures Count(Layout(tasks), i) == SeedCount(tasks[i].percent)
  {
    var n := |tasks|;
    var init := tasks[..n - 1];
    var rep := Repeat(n - 1, SeedCount(tasks[n - 1].percent));
    CountAppend(Layout(init), rep, i);
    CountRepeat(n - 1, SeedCount(tasks[n - 1].percent), i);
    if i == n - 1 {
      CountAbsent(Layout(init), i);
    } else {
      LayoutCount(init, i);
    }
  }

  // ---------------------------------------------------------------------------
  // Painting one slot (Quizz.tsx:91-98) and mapping a touch to a slot
  // (Quizz.tsx:100-112)
  // ---------------------------------------------------------------------------

  /**
   * `setHourValue`: the slots mapped position by position, `value` at `index`
   * and the old slot everywhere else.
   */
  function SetHourValue(hours: seq<int>, index: int, value: int): (r: seq<int>)
    ensures 0 <= index < |hours| ==> r == hours[index := value]
    ensures !(0 <= index < |hours|) ==> r == hours
  {
    seq(|hours|, k requires 0 <= k < |hours| => if k == index then value else hours[k])
  }

  /** Setting a slot twice to the same value is setting it once. */
  lemma SetHourValueIdempotent(hours: seq<int>, index: int, value: int)
    ensures SetHourValue(SetHourValue(hours, index, value), index, value)
         == SetHourValue(hours, index, value)
  {
  }

  /** Setting a slot again overrides the earlier value: the last write wins. */
  lemma SetHourValueLastWins(hours: seq<int>, index: int, first: int, second: int)
    ensures SetHourValue(SetHourValue(hours, index, first), index, second)
         == SetHourValue(hours, index, second)
  {
  }

  /**
   * The slot under a touch at `pageX` on a strip laid out at `x` with `width`,
   * split into `slots` equal parts: the floor of `(pageX - x) / width * slots`
   * when the strip has a width and the touch is over it, and nothing otherwise
   * (samples off the strip are dropped, not clamped).
   */
  function SlotAt(pageX: int, x: int, width: int, slots: nat): (r: Option<nat>)
    ensures r.Some? ==> r.value < slots && r.value * width <= (pageX - x) * slots < (r.value + 1) * width
    ensures slots > 0 ==> (r.Some? <==> width > 0 && x <= pageX < x + width)
  {
    if width > 0 then
      var a := (pageX - x) * slots;
      var i := a / width;
      DivFloor(a, width);
      SlotAtOnStrip(pageX - x, width, slots, i);
      if 0 <= i && i <= slots - 1 then Some(i) else None
    else None
  }

  /** The floor of `d * slots / width` is a slot number exactly when `0 <= d < width`. */
  lemma SlotAtOnStrip(d: int, width: int, slots: nat, i: int)
    requires width > 0
    requires i * width <= d * slots < (i + 1) * width
    ensures slots > 0 ==> ((0 <= i <= slots - 1) <==> (0 <= d < width))
  {
    if slots == 0 {
    } else if 0 <= i <= slots - 1 {
      MulMonotone(0, i, width);
      MulMonotone(i + 1, slots, width);
      if d < 0 {
        MulMonotone(d, -1, slots);
      }
      MulCancelLess(d, width, slots);
    }
    if slots > 0 && 0 <= d < width {
      MulMonotone(0, d, slots);
      MulMonotone(d + 1, width, slots);
      if i < 0 {
        MulMonotone(i + 1, 0, width);
      }
      if i > slots - 1 {
        MulMonotone(slots, i, width);
      }
    }
  }

  /** One touch sample: the slot under it, if any, is set to the selected task. */
  function Paint(hours: seq<int>, pageX: int, x: int, width: int, current: int): (r: seq<int>)
    ensures |r| == |hours|
    ensures forall k :: 0 <= k < |r| ==> r[k] == hours[k] || r[k] == current
    ensures forall k, l :: 0 <= k < l < |r| && r[k] != hours[k] ==> r[l] == hours[l]
    ensures forall k, l :: 0 <= k < l < |r| && r[l] != hours[l] ==> r[k] == hours[k]
  {
    match SlotAt(pageX, x, width, |hours|)
    case Some(i) => SetHourValue(hours, i, current)
    case None => hours
  }

  /** A sample over slot `i` (the floor of the touch's relative position) sets exactly that slot. */
  lemma PaintHit(hours: seq<int>, pageX: int, x: int, width: int, current: int, i: int)
    requires 0 <= i < |hours|
    requires i * width <= (pageX - x) * |hours| < (i + 1) * width
    ensures Paint(hours, pageX, x, width, current) == hours[i := current]
  {
    assert width > 0 by {
      if width <= 0 {
        assert (i + 1) * width == i * width + width;
      }
    }
    SlotAtOnStrip(pageX - x, width, |hours|, i);
    var r := SlotAt(pageX, x, width, |hours|);
    FloorUnique((pageX - x) * |hours|, width, i, r.value);
  }

  /** A sample off the strip, or before the strip has a width, changes nothing. */
  lemma PaintMiss(hours: seq<int>, pageX: int, x: int, width: int, current: int)
    requires width <= 0 || pageX < x || x + width <= pageX
    ensures Paint(hours, pageX, x, width, current) == hours
  {
  }

  /** Repeating a sample over the same spot is a no-op. */
  lemma PaintIdempotent(hours: seq<int>, pageX: int, x: int, width: int, current: int)
    ensures Paint(Paint(hours, pageX, x, width, current), pageX, x, width, current)
         == Paint(hours, pageX, x, width, current)
  {
  }

  // ---------------------------------------------------------------------------
  // Submitting: slots counted per task (Quizz.tsx:114-127)
  // ---------------------------------------------------------------------------

  /** The number of slots holding `v` (`hours.filter(h => h === v).length`). */
  function Count(hours: seq<int>, v: int): (n: nat)
    ensures n <= |hours|
  {
    if hours == [] then 0
    else Count(hours[..|hours| - 1], v) + (if hours[|hours| - 1] == v then 1 else 0)
  }

  lemma {:induction false} CountAppend(a: seq<int>, b: seq<int>, v: int)
    ensures Count(a + b, v) == Count(a, v) + Count(b, v)
  {
    if b == [] {
      assert a + b == a;
    } else {
      assert (a + b)[..|a + b| - 1] == a + b[..|b| - 1];
      CountAppend(a, b[..|b| - 1], v);
    }
  }

  lemma {:induction false} CountRepeat(u: int, n: nat, v: int)
    ensures Count(Repeat(u, n), v) == if u == v then n else 0
  {
    if n > 0 {
      assert Repeat(u, n)[..n - 1] == Repeat(u, n - 1);
      CountRepeat(u, n - 1, v);
    }
  }

  lemma {:induction false} CountAbsent(a: seq<int>, v: int)
    requires forall k :: 0 <= k < |a| ==> a[k] != v
    ensures Count(a, v) == 0
  {
    if a != [] {
      CountAbsent(a[..|a| - 1], v);
    }
  }

  /** The entry the `map` step builds for task `i`. */
  function TimeOf(tasks: seq<Task>, hours: seq<int>, i: nat): (t: Time)
    requires i < |tasks|
    ensures t.id == tasks[i].id && t.title == tasks[i].title
    ensures 0 <= t.time <= |hours|
  {
    Time(tasks[i].id, tasks[i].title, Count(hours, i))
  }

  /** One entry per task, in configuration order. */
  function AllTimes(tasks: seq<Task>, hours: seq<int>): (r: seq<Time>)
    ensures |r| == |tasks|
    ensures forall i :: 0 <= i < |r| ==> r[i].id == tasks[i].id && 0 <= r[i].time <= |hours|
  {
    seq(|tasks|, i requires 0 <= i < |tasks| => TimeOf(tasks, hours, i))
  }

  /** The entries with a positive time, in their order (`.filter(t => t.time > 0)`). */
  function Positive(ts: seq<Time>): (r: seq<Time>)
    ensures |r| <= |ts|
    ensures forall k :: 0 <= k < |r| ==> r[k].time > 0 && r[k] in ts
  {
    if ts == [] then []
    else Positive(ts[..|ts| - 1]) + (if ts[|ts| - 1].time > 0 then [ts[|ts| - 1]] else [])
  }

  /** The `times` a submission reports. */
  function Aggregate(tasks: seq<Task>, hours: seq<int>): (r: seq<Time>)
    ensures |r| <= |tasks|
    ensures forall k :: 0 <= k < |r| ==> 0 < r[k].time <= |hours|
  {
    Positive(AllTimes(tasks, hours))
  }

  /** The sum of the reported hours. */
  function TotalTime(ts: seq<Time>): int
  {
    if ts == [] then 0 else TotalTime(ts[..|ts| - 1]) + ts[|ts| - 1].time
  }

  /** An entry survives the filter exactly when it is there and has time. */
  lemma {:induction false} PositiveMembers(ts: seq<Time>, t: Time)
    ensures t in Positive(ts) <==> t in ts && t.time > 0
  {
    if ts != [] {
      var init := ts[..|ts| - 1];
      PositiveMembers(init, t);
      assert ts == init + [ts[|ts| - 1]];
    }
  }

  /** Dropping entries with no time leaves the total unchanged. */
  lemma {:induction false} PositiveTotal(ts: seq<Time>)
    requires forall k :: 0 <= k < |ts| ==> ts[k].time >= 0
    ensures TotalTime(Positive(ts)) == TotalTime(ts)
  {
    if ts != [] {
      var init := ts[..|ts| - 1];
      PositiveTotal(init);
      var tail := if ts[|ts| - 1].time > 0 then [ts[|ts| - 1]] else [];
      var p := Positive(init) + tail;
      if tail != [] {
        assert p[..|p| - 1] == Positive(init);
      } else {
        assert p == Positive(init);
      }
    }
  }

  /**
   * Reports come in configuration order: extending the task list by one task
   * appends at most that task's entry, and only when it has slots.
   */
  lemma AggregateStep(tasks: seq<Task>, hours: seq<int>, n: nat)
    requires n < |tasks|
    ensures Aggregate(tasks[..n + 1], hours)
         == Aggregate(tasks[..n], hours)
          + (if Count(hours, n) > 0 then [TimeOf(tasks, hours, n)] else [])
  {
    var all := AllTimes(tasks[..n + 1], hours);
    assert all[..n] == AllTimes(tasks[..n], hours);
    assert all[n] == TimeOf(tasks, hours, n);
  }

  /**
   * Every reported entry is some task's `{id, title, time}` with a positive
   * time, and every task holding at least one slot is reported.
   */
  lemma AggregateMembers(tasks: seq<Task>, hours: seq<int>)
    ensures forall t :: t in Aggregate(tasks, hours) ==>
      t.time > 0 && exists i :: 0 <= i < |tasks| && t == TimeOf(tasks, hours, i)
    ensures forall i :: 0 <= i < |tasks| && Count(hours, i) > 0 ==>
      TimeOf(tasks, hours, i) in Aggregate(tasks, hours)
  {
    var all := AllTimes(tasks, hours);
    forall t | t in Aggregate(tasks, hours)
      ensures t.time > 0 && exists i :: 0 <= i < |tasks| && t == TimeOf(tasks, hours, i)
    {
      PositiveMembers(all, t);
      var i :| 0 <= i < |all| && all[i] == t;
    }
    forall i | 0 <= i < |tasks| && Count(hours, i) > 0
      ensures TimeOf(tasks, hours, i) in Aggregate(tasks, hours)
    {
      assert all[i] == TimeOf(tasks, hours, i);
      PositiveMembers(all, TimeOf(tasks, hours, i));
    }
  }

  /** The number of slots holding an index in `[0, n)`. */
  function CountBelow(hours: seq<int>, n: int): nat
  {
    if hours == [] then 0
    else CountBelow(hours[..|hours| - 1], n) + (if 0 <= hours[|hours| - 1] < n then 1 else 0)
  }

  lemma {:induction false} CountBelowStep(hours: seq<int>, n: nat)
    ensures CountBelow(hours, n + 1) == CountBelow(hours, n) + Count(hours, n)
  {
    if hours != [] {
      CountBelowStep(hours[..|hours| - 1], n);
    }
  }

  /** Slots are counted once for every index range that holds them all; none is below 0. */
  lemma {:induction false} CountBelowAll(hours: seq<int>, n: int)
    ensures (forall k :: 0 <= k < |hours| ==> 0 <= hours[k] < n) ==> CountBelow(hours, n) == |hours|
    ensures n <= 0 ==> CountBelow(hours, n) == 0
  {
    if hours != [] {
      CountBelowAll(hours[..|hours| - 1], n);
    }
  }

  lemma {:induction false} TotalAllTimes(tasks: seq<Task>, hours: seq<int>, n: nat)
    requires n <= |tasks|
    ensures TotalTime(AllTimes(tasks[..n], hours)) == CountBelow(hours, n)
  {
    if n > 0 {
      TotalAllTimes(tasks, hours, n - 1);
      CountBelowStep(hours, n - 1);
      var all := AllTimes(tasks[..n], hours);
      assert tasks[..n][..n - 1] == tasks[..n - 1];
      assert all[..n - 1] == AllTimes(tasks[..n - 1], hours);
      assert all[n - 1].time == Count(hours, n - 1);
      assert TotalTime(all) == TotalTime(all[..n - 1]) + all[n - 1].time;
    } else {
      CountBelowAll(hours, 0);
    }
  }

  /**
   * When every slot holds a valid task index, the reported hours add up to
   * the number of slots.
   */
  lemma AggregateTotal(tasks: seq<Task>, hours: seq<int>)
    requires forall k :: 0 <= k < |hours| ==> 0 <= hours[k] < |tasks|
    ensures TotalTime(Aggregate(tasks, hours)) == |hours|
  {
    var all := AllTimes(tasks, hours);
    PositiveTotal(all);
    TotalAllTimes(tasks, hours, |tasks|);
    assert tasks[..|tasks|] == tasks;
    CountBelowAll(hours, |tasks|);
  }

  /**
   * Two tasks of 90% each ask for 16 slots: the first fills the day, the
   * second is cut off, and nothing is written past the eighth slot.
   */
  lemma SeedOverflowExample(a: Task, b: Task)
    requires a.percent == Some(Ratio(9, 10)) && b.percent == Some(Ratio(9, 10))
    ensures Seeded([a, b]) == Repeat(0, SlotCount)
  {
    assert SeedCount(a.percent) == 8;
    assert [a, b][..1] == [a];
    assert [a][..0] == [];
    assert Layout([a]) == Repeat(0, 8);
    assert Layout([a, b]) == Repeat(0, 8) + Repeat(1, 8);
  }

  /** Tasks A, B, C over slots `[0,0,1,1,1,2,2,2]` report A 2h, B 3h, C 3h, in that order. */
  lemma AggregateExample(a: Task, b: Task, c: Task)
    ensures Aggregate([a, b, c], [0, 0, 1, 1, 1, 2, 2, 2])
         == [Time(a.id, a.title, 2), Time(b.id, b.title, 3), Time(c.id, c.title, 3)]
  {
    var tasks := [a, b, c];
    var hours := [0, 0, 1, 1, 1, 2, 2, 2];
    assert hours == Repeat(0, 2) + Repeat(1, 3) + Repeat(2, 3);
    forall v
      ensures Count(hours, v)
           == (if v == 0 then 2 else 0) + (if v == 1 then 3 else 0) + (if v == 2 then 3 else 0)
    {
      CountAppend(Repeat(0, 2) + Repeat(1, 3), Repeat(2, 3), v);
      CountAppend(Repeat(0, 2), Repeat(1, 3), v);
      CountRepeat(0, 2, v);
      CountRepeat(1, 3, v);
      CountRepeat(2, 3, v);
    }
    assert tasks[..0] == [];
    AggregateStep(tasks, hours, 0);
    AggregateStep(tasks, hours, 1);
    AggregateStep(tasks, hours, 2);
    assert tasks[..3] == tasks;
  }

  // ---------------------------------------------------------------------------
  // The component's state (Quizz.tsx:86-127)
  // ---------------------------------------------------------------------------

  /**
   * One quiz in progress: the slots, the strip's layout and the selected task.
   * `date`, `tasks` and `defaultJiraConfig` are the component's fixed inputs.
   */
  class QuizzState {
    const date: QuizzDate
    const tasks: seq<Task>
    /** The credentials the task list falls back on when a task has none of its own. */
    const defaultJiraConfig: JiraConfig
    var hours: seq<int>
    var x: int
    var width: int
    var currentTaskIndex: int

    /** The slot count never changes. */
    ghost predicate Valid()
      reads this
    {
      |hours| == SlotCount
    }

    /** Every slot names a task of the configuration. */
    ghost predicate SlotsIndexed()
      reads this
    {
      && Valid()
      && (forall k :: 0 <= k < |hours| ==> 0 <= hours[k] < |tasks|)
    }

    /** Every slot, and the selected task, name a task of the configuration. */
    ghost predicate Indexed()
      reads this
    {
      && SlotsIndexed()
      && 0 <= currentTaskIndex < |tasks|
    }

    /**
     * The initial state for the quiz of `date` under `config`: seeded slots,
     * no layout yet, the first task selected.
     */
    constructor (date: QuizzDate, config: Config)
      ensures this.date == date && tasks == config.tasks && defaultJiraConfig == config.defaultJiraConfig
      ensures hours == Seeded(config.tasks) && x == 0 && width == 0 && currentTaskIndex == 0
      ensures Valid()
      ensures |config.tasks| > 0 ==> Indexed()
    {
      var seeded := DefaultHours(config.tasks);
      this.date := date;
      tasks := config.tasks;
      defaultJiraConfig := config.defaultJiraConfig;
      hours := seeded;
      x := 0;
      width := 0;
      currentTaskIndex := 0;
      if |config.tasks| > 0 {
        SeededInRange(config.tasks);
      }
    }

    /** `onLayout`: records where the slot strip is and how wide it is. */
    method OnLayout(layoutX: int, layoutWidth: int)
      modifies this`x, this`width
      ensures x == layoutX && width == layoutWidth
    {
      x := layoutX;
      width := layoutWidth;
    }

    /** `onSelect`: arms a task for painting. */
    method Select(taskIndex: int)
      modifies this`currentTaskIndex
      ensures currentTaskIndex == taskIndex
      ensures old(SlotsIndexed()) ==> SlotsIndexed()
      ensures old(Indexed()) && 0 <= taskIndex < |tasks| ==> Indexed()
    {
      currentTaskIndex := taskIndex;
    }

    /** `onTouchMove`: the slot under the touch, if any, takes the selected task. */
    method OnTouchMove(pageX: int)
      requires Valid()
      modifies this`hours
      ensures Valid()
      ensures hours == Paint(old(hours), pageX, x, width, currentTaskIndex)
      ensures old(SlotsIndexed()) && 0 <= currentTaskIndex < |tasks| ==> SlotsIndexed()
      ensures old(Indexed()) ==> Indexed()
    {
      if width > 0 {
        var i := (pageX - x) * |hours| / width;
        if i >= 0 && i <= |hours| - 1 {
          hours := SetHourValue(hours, i, currentTaskIndex);
        }
      }
    }

    /**
     * The ticket the task list shows for the task at `index`: the task's own
     * credentials are used when it has them, the configuration's default ones
     * otherwise, and an unlinked task makes no search.
     */
    function TicketOf(index: nat, search: Jira.Search): (r: Jira.Lookup)
      requires index < |tasks|
      ensures tasks[index].jira.None? ==> r.searches == []
      ensures forall req :: req in r.searches ==>
        && tasks[index].jira.Some?
        && req.config == Jira.EffectiveConfig(tasks[index].jira.value, defaultJiraConfig)
    {
      Jira.TaskSearchUsesEffectiveConfig(tasks[index], defaultJiraConfig, search);
      Jira.TaskTicket(tasks[index], defaultJiraConfig, search)
    }

    /** `submit`: the day's result, hours counted per task in configuration order. */
    method Submit() returns (result: TimeResult)
      ensures result.date == date && result.times == Aggregate(tasks, hours)
      ensures SlotsIndexed() ==> TotalTime(result.times) == SlotCount
    {
      result := TimeResult(date, Aggregate(tasks, hours));
      if SlotsIndexed() {
        AggregateTotal(tasks, hours);
      }
    }
  }
}
