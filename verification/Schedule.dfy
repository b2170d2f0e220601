/** When each slot of an encoded group is presented. Times are in nanoseconds; 0 is the clock's epoch,
    which stands for "no deadline" and "no anchor". */
module Schedule {
  import opened Arithmetic

  const NATIVE_PRESENT_OFFSET := 6_500_000
  const UINT32 := 0x1_0000_0000

  /** A presentation job's timing: its deadline and how far its group slid. */
  datatype Timing = Timing(presentAt: int, slidPeriods: nat)

  /** What is latched for a group when its frame is sealed. */
  datatype Context = Context(base: nat, interval: nat, interpolatedFrames: nat) {
    predicate InterpolationActive() { interpolatedFrames != 0 }
    function JobCount(): nat { interpolatedFrames + 1 }
    predicate Scheduled() { InterpolationActive() && base != 0 && interval != 0 }
  }

  function SlotOffset(c: Context, slot: nat): nat {
    (c.interval * slot) / c.JobCount()
  }

  function SlotPresentDeadline(c: Context, slot: nat): int {
    if c.base == 0 || c.interval == 0 then 0
    else if !c.InterpolationActive() then c.base - c.interval + NATIVE_PRESENT_OFFSET
    else c.base + SlotOffset(c, slot)
  }

  lemma SlotOffsetsGrowWithinOneInterval(c: Context, j: nat, k: nat)
    requires j <= k <= c.interpolatedFrames
    ensures SlotOffset(c, j) <= SlotOffset(c, k)
    ensures c.interval != 0 ==> SlotOffset(c, k) < c.interval
    ensures SlotOffset(c, 0) == 0
  {
    var n := c.JobCount();
    Monotone(c.interval, j, k);
    DivideMonotone(c.interval * j, c.interval * k, n);
    if c.interval != 0 {
      Monotone(c.interval, k, n - 1);
      assert c.interval * (n - 1) == c.interval * n - c.interval;
      DivideBelow(c.interval * k, c.interval, n);
    }
  }

  /** The slots divide the interval evenly: slot `k` lies at `k` of as many parts as there are slots, rounded down
      to the clock's unit. */
  lemma SlotsDivideTheInterval(c: Context, k: nat)
    requires k <= c.interpolatedFrames
    ensures 0 <= c.interval * k - (c.interpolatedFrames + 1) * SlotOffset(c, k) < c.interpolatedFrames + 1
  {
    DividesEvenly(c.interval * k, c.JobCount());
  }

  /** Without interpolation a frame is due 6.5 ms after the boundary before its base; without a schedule it is
      due at once. */
  lemma NativeFrameFollowsTheBoundary(boundary: nat, interval: nat)
    requires interval > 0
    ensures SlotPresentDeadline(Context(boundary + interval, interval, 0), 0) == boundary + 6_500_000
    ensures SlotPresentDeadline(Context(0, interval, 0), 0) == SlotPresentDeadline(Context(boundary, 0, 0), 0) == 0
  {
  }

  lemma DividesEvenly(a: nat, n: nat)
    requires n > 0
    ensures n * (a / n) <= a < n * (a / n) + n
  {
  }

  /** The base, or a base already late slid past the clock. */
  function OnTime(base: int, interval: nat, now: int): int
    requires interval > 0
  {
    if now > base then base + ((now - base) / interval + 1) * interval else base
  }

  /** Where a group whose base is `base` is anchored, the previous group having been anchored at `last`. */
  function Anchor(base: int, interval: nat, now: int, last: int): int
    requires interval > 0
  {
    var onTime := OnTime(base, interval, now);
    if last != 0 && onTime <= last then last + interval else onTime
  }

  /** The cursor after the group. */
  function NextAnchor(c: Context, now: int, last: int): int {
    if c.Scheduled() then Anchor(c.base, c.interval, now, last) else 0
  }

  function Shift(c: Context, now: int, last: int): int {
    if c.Scheduled() then Anchor(c.base, c.interval, now, last) - c.base else 0
  }

  /** Whole intervals apart. */
  ghost predicate OnGrid(t: int, origin: int, interval: nat) {
    exists k: int :: t == origin + k * interval
  }

  /** The group slides forward as a whole: never before now or its base, always past the group before, and no
      further than an interval past the later of them. */
  lemma AnchorLimits(base: int, interval: nat, now: int, last: int)
    requires interval > 0
    ensures Anchor(base, interval, now, last) >= base && Anchor(base, interval, now, last) >= now
    ensures now > base ==> Anchor(base, interval, now, last) > now
    ensures last != 0 ==> Anchor(base, interval, now, last) > last
    ensures Anchor(base, interval, now, last) == base || Anchor(base, interval, now, last) <= now + interval ||
            (last != 0 && Anchor(base, interval, now, last) == last + interval)
  {
    if now > base {
      var behind := now - base;
      assert behind == (behind / interval) * interval + behind % interval;
      assert (behind / interval + 1) * interval == (behind / interval) * interval + interval;
    }
  }

  lemma GridPointsAreIntervalsApart(origin: int, a: int, b: int, interval: nat)
    requires OnGrid(a, origin, interval) && OnGrid(b, origin, interval) && a < b
    ensures a + interval <= b
  {
    var j: int :| a == origin + j * interval;
    var k: int :| b == origin + k * interval;
    if k <= j { Monotone(interval, k, j); }
    Monotone(interval, j + 1, k);
  }

  /** The least time on the group's grid that is not before its base and now, strictly after now if the
      base is already late, and after the previous anchor. */
  ghost predicate Meets(c: Context, now: int, last: int, t: int) {
    OnGrid(t, c.base, c.interval) && t >= c.base && t >= now && (now > c.base ==> t > now) &&
    (last != 0 ==> t > last)
  }

  /** When the previous anchor lies on the group's own grid, the new one is the least grid point that
      meets the limits, and the slide is a whole number of periods. The number reported is that number
      exactly as long as it fits 32 bits. */
  lemma AnchorIsLeast(c: Context, now: int, last: int, other: int)
    requires c.Scheduled() && (last == 0 || OnGrid(last, c.base, c.interval))
    ensures Meets(c, now, last, NextAnchor(c, now, last))
    ensures Meets(c, now, last, other) ==> NextAnchor(c, now, last) <= other
    ensures Shift(c, now, last) == ShiftPeriods(c, now, last) * c.interval
    ensures Shift(c, now, last) == ReportedPeriods(c, now, last) * c.interval <==>
            ShiftPeriods(c, now, last) < UINT32
  {
    var i := c.interval;
    AnchorLimits(c.base, i, now, last);
    var periods := if now > c.base then (now - c.base) / i + 1 else 0;
    var onTime := c.base + periods * i;
    if last != 0 && onTime <= last {
      var k: int :| last == c.base + k * i;
      assert NextAnchor(c, now, last) == c.base + (k + 1) * i;
      WholePeriods(c, now, last, k + 1);
      if Meets(c, now, last, other) { GridPointsAreIntervalsApart(c.base, last, other, i); }
    } else {
      WholePeriods(c, now, last, periods);
      if Meets(c, now, last, other) && now > c.base { LateGridPoint(c, now, other); }
    }
    ReportedWhenItFits(c, now, last);
  }

  lemma ReportedWhenItFits(c: Context, now: int, last: int)
    requires c.Scheduled() && Shift(c, now, last) == ShiftPeriods(c, now, last) * c.interval
    ensures Shift(c, now, last) == ReportedPeriods(c, now, last) * c.interval <==>
            ShiftPeriods(c, now, last) < UINT32
  {
    var i, periods := c.interval, ShiftPeriods(c, now, last);
    AnchorLimits(c.base, i, now, last);
    if periods < 0 { Monotone(i, periods, -1); }
    if periods >= UINT32 { Monotone(i, periods % UINT32 + 1, periods); }
  }

  lemma WholePeriods(c: Context, now: int, last: int, k: int)
    requires c.Scheduled() && NextAnchor(c, now, last) == c.base + k * c.interval
    ensures OnGrid(NextAnchor(c, now, last), c.base, c.interval)
    ensures Shift(c, now, last) == ShiftPeriods(c, now, last) * c.interval
  {
    QuotientIs(k * c.interval + c.interval - 1, c.interval, k, c.interval - 1);
  }

  lemma LateGridPoint(c: Context, now: int, other: int)
    requires c.Scheduled() && now > c.base && OnGrid(other, c.base, c.interval) && other > now
    ensures c.base + ((now - c.base) / c.interval + 1) * c.interval <= other
  {
    var behind := (now - c.base) / c.interval;
    assert now - c.base == behind * c.interval + (now - c.base) % c.interval;
    assert OnGrid(c.base + behind * c.interval, c.base, c.interval);
    GridPointsAreIntervalsApart(c.base, c.base + behind * c.interval, other, c.interval);
  }

  /** The slide in periods, rounded up - before it is cut down to 32 bits. */
  function ShiftPeriods(c: Context, now: int, last: int): int {
    if c.interval == 0 then 0 else (Shift(c, now, last) + c.interval - 1) / c.interval
  }

  /** A slide is counted in whole periods, a part of one as one. */
  lemma SlideIsRoundedUp(c: Context, now: int, last: int)
    requires c.Scheduled()
    ensures (ShiftPeriods(c, now, last) - 1) * c.interval < Shift(c, now, last) <= ShiftPeriods(c, now, last) * c.interval
    ensures ReportedPeriods(c, now, last) == ShiftPeriods(c, now, last) % 0x1_0000_0000
  {
    AnchorLimits(c.base, c.interval, now, last);
    var rounded := Shift(c, now, last) + c.interval - 1;
    DividesEvenlyInt(rounded, c.interval);
    assert (ShiftPeriods(c, now, last) - 1) * c.interval == c.interval * (rounded / c.interval) - c.interval;
    if Shift(c, now, last) == 0 { QuotientIs(rounded, c.interval, 0, rounded); }
  }

  lemma DividesEvenlyInt(a: int, n: nat)
    requires n > 0
    ensures n * (a / n) <= a < n * (a / n) + n
  {
  }

  /** The number of periods in the jobs' telemetry field. */
  function ReportedPeriods(c: Context, now: int, last: int): nat {
    if Shift(c, now, last) > 0 then ShiftPeriods(c, now, last) % UINT32 else 0
  }

  /** What the group's jobs carry when they leave the encoder. */
  function GroupTimings(c: Context, now: int, last: int): seq<Timing> {
    seq(c.JobCount(), k requires 0 <= k < c.JobCount() =>
      Timing(SlotPresentDeadline(c, k) + Shift(c, now, last), ReportedPeriods(c, now, last)))
  }

  method StampDeadlines(c: Context) returns (jobs: seq<Timing>)
    ensures |jobs| == c.JobCount()
    ensures forall k | 0 <= k < |jobs| :: jobs[k] == Timing(SlotPresentDeadline(c, k), 0)
  {
    jobs := [];
    for slot := 0 to c.JobCount()
      invariant |jobs| == slot
      invariant forall k | 0 <= k < slot :: jobs[k] == Timing(SlotPresentDeadline(c, k), 0)
    {
      jobs := jobs + [Timing(SlotPresentDeadline(c, slot), 0)];
    }
  }

  /** The whole group slides, never a single slot. */
  method SlideGroup(group: seq<Timing>, shift: int, slidPeriods: nat) returns (jobs: seq<Timing>)
    ensures |jobs| == |group|
    ensures forall k | 0 <= k < |jobs| :: jobs[k] == Timing(group[k].presentAt + shift, slidPeriods)
  {
    jobs := group;
    for slot := 0 to |jobs|
      invariant |jobs| == |group|
      invariant forall k | 0 <= k < slot :: jobs[k] == Timing(group[k].presentAt + shift, slidPeriods)
      invariant forall k | slot <= k < |jobs| :: jobs[k] == group[k]
    {
      jobs := jobs[slot := Timing(jobs[slot].presentAt + shift, slidPeriods)];
    }
  }

  /** The cursor that outlives the groups. */
  class PresentationSchedule {
    var lastGroupAnchor: int

    constructor ()
      ensures lastGroupAnchor == 0
    {
      lastGroupAnchor := 0;
    }

    /** Times the slots of one group and moves the cursor. */
    method ScheduleGroup(c: Context, now: int) returns (jobs: seq<Timing>)
      modifies this
      ensures jobs == GroupTimings(c, now, old(lastGroupAnchor))
      ensures lastGroupAnchor == NextAnchor(c, now, old(lastGroupAnchor))
    {
      jobs := StampDeadlines(c);
      SlotOffsetsGrowWithinOneInterval(c, 0, 0);
      if c.InterpolationActive() && c.interval != 0 && jobs != [] && jobs[0].presentAt != 0 {
        var anchor := jobs[0].presentAt;
        if now > anchor {
          var periods := (now - anchor) / c.interval + 1;
          anchor := anchor + periods * c.interval;
        }
        if lastGroupAnchor != 0 && anchor <= lastGroupAnchor {
          anchor := lastGroupAnchor + c.interval;
        }
        var shift := anchor - jobs[0].presentAt;
        if shift > 0 {
          var slidPeriods := ((shift + c.interval - 1) / c.interval) % UINT32;
          jobs := SlideGroup(jobs, shift, slidPeriods);
        }
        AnchorLimits(c.base, c.interval, now, lastGroupAnchor);
        lastGroupAnchor := anchor;
      } else {
        lastGroupAnchor := 0;
      }
    }
  }

  // ------------------------------------------------------------------------------------ whole runs

  /** One group: what was latched for it, and the clock when it had been encoded. */
  datatype Group = Group(context: Context, now: int)

  function Cursor(groups: seq<Group>): int {
    if groups == [] then 0
    else var g := groups[|groups| - 1];
      NextAnchor(g.context, g.now, Cursor(groups[..|groups| - 1]))
  }

  function PresentTimes(timings: seq<Timing>): (times: seq<int>) {
    seq(|timings|, k requires 0 <= k < |timings| => timings[k].presentAt)
  }

  /** The deadlines of all slots of all groups, in presentation order. */
  function Deadlines(groups: seq<Group>): seq<int> {
    if groups == [] then []
    else var g, before := groups[|groups| - 1], groups[..|groups| - 1];
      Deadlines(before) + PresentTimes(GroupTimings(g.context, g.now, Cursor(before)))
  }

  /** Every group is interpolated, and all bases lie on one grid. */
  ghost predicate OneGrid(groups: seq<Group>, origin: int, interval: nat) {
    forall k | 0 <= k < |groups| :: groups[k].context.Scheduled() && groups[k].context.interval == interval &&
      OnGrid(groups[k].context.base, origin, interval)
  }

  lemma GridShared(t: int, origin: int, base: int, interval: nat)
    requires OnGrid(base, origin, interval)
    ensures OnGrid(t, origin, interval) <==> OnGrid(t, base, interval)
  {
    var j: int :| base == origin + j * interval;
    if OnGrid(t, origin, interval) {
      var k: int :| t == origin + k * interval;
      assert t == base + (k - j) * interval;
    }
    if OnGrid(t, base, interval) {
      var k: int :| t == base + k * interval;
      assert t == origin + (k + j) * interval;
    }
  }

  ghost predicate Nondecreasing(times: seq<int>) {
    forall i, j | 0 <= i <= j < |times| :: times[i] <= times[j]
  }

  /** As long as groups stay scheduled on one grid, the slots of all of them together are presented in
      order: no group starts before every slot of the groups before it. */
  lemma {:induction false} DeadlinesNeverGoBack(groups: seq<Group>, origin: int, interval: nat)
    requires OneGrid(groups, origin, interval)
    ensures Nondecreasing(Deadlines(groups))
    ensures groups != [] ==> Cursor(groups) > 0 && OnGrid(Cursor(groups), origin, interval)
    ensures forall i | 0 <= i < |Deadlines(groups)| :: Deadlines(groups)[i] < Cursor(groups) + interval
  {
    if groups == [] {
    } else {
      var g, before := groups[|groups| - 1], groups[..|groups| - 1];
      var c, last := g.context, Cursor(before);
      DeadlinesNeverGoBack(before, origin, interval);
      GridShared(last, origin, c.base, interval);
      AnchorIsLeast(c, g.now, last, 0);
      GridShared(Cursor(groups), origin, c.base, interval);
      if before != [] { GridPointsAreIntervalsApart(origin, last, Cursor(groups), interval); }
      GroupStaysInItsInterval(c, g.now, last);
    }
  }

  lemma GroupStaysInItsInterval(c: Context, now: int, last: int)
    requires c.Scheduled()
    ensures var timings := GroupTimings(c, now, last);
      forall j, k | 0 <= j <= k < |timings| ::
        NextAnchor(c, now, last) <= timings[j].presentAt <= timings[k].presentAt < NextAnchor(c, now, last) + c.interval
  {
    var timings := GroupTimings(c, now, last);
    forall j, k | 0 <= j <= k < |timings|
      ensures NextAnchor(c, now, last) <= timings[j].presentAt <= timings[k].presentAt
      ensures timings[k].presentAt < NextAnchor(c, now, last) + c.interval
    {
      SlotOffsetsGrowWithinOneInterval(c, 0, j);
      SlotOffsetsGrowWithinOneInterval(c, j, k);
      assert timings[j].presentAt == SlotPresentDeadline(c, j) + Shift(c, now, last);
      assert timings[k].presentAt == SlotPresentDeadline(c, k) + Shift(c, now, last);
    }
  }

  // ----------------------------------------------------------------- runs whose schedule comes and goes

  /** What must hold when a group has been encoded, all before it being due by `due` and the cursor being
      at `last`, for its slots not to be presented before theirs. A group without a schedule is due at
      once, or at its native offset; one with a schedule must slide far enough. */
  predicate Follows(c: Context, now: int, last: int, due: int) {
    if !c.Scheduled() then
      due <= if c.base == 0 || c.interval == 0 then 0 else c.base - c.interval + NATIVE_PRESENT_OFFSET
    else if last != 0 && OnTime(c.base, c.interval, now) <= last then
      due <= last + c.interval
    else
      due <= c.base || (now > c.base && (due - c.base - 1) / c.interval <= (now - c.base) / c.interval)
  }

  lemma FollowsExactly(c: Context, now: int, last: int, due: int)
    ensures Follows(c, now, last, due) <==> due <= GroupTimings(c, now, last)[0].presentAt
  {
    SlotOffsetsGrowWithinOneInterval(c, 0, 0);
    if c.Scheduled() && now > c.base {
      LateGroupReaches(due - c.base, now - c.base, c.interval);
    }
  }

  lemma LateGroupReaches(due: int, behind: nat, interval: nat)
    requires interval > 0 && behind > 0
    ensures due <= (behind / interval + 1) * interval <==>
            due <= 0 || (due - 1) / interval <= behind / interval
  {
    var q, d := behind / interval, (due - 1) / interval;
    assert due - 1 == interval * d + (due - 1) % interval;
    if d <= q { Monotone(interval, d, q); } else { Monotone(interval, q + 1, d); }
    if due <= 0 { Monotone(interval, 0, q + 1); }
  }

  function LastDue(groups: seq<Group>): int
    requires groups != []
  {
    var g, before := groups[|groups| - 1], groups[..|groups| - 1];
    GroupTimings(g.context, g.now, Cursor(before))[g.context.interpolatedFrames].presentAt
  }

  /** Each group follows the one before it. */
  predicate EachFollows(groups: seq<Group>) {
    groups == [] ||
    var g, before := groups[|groups| - 1], groups[..|groups| - 1];
      EachFollows(before) && (before == [] || Follows(g.context, g.now, Cursor(before), LastDue(before)))
  }

  lemma NondecreasingJoined(a: seq<int>, b: seq<int>)
    requires a != [] && b != []
    ensures Nondecreasing(a + b) <==> Nondecreasing(a) && Nondecreasing(b) && a[|a| - 1] <= b[0]
  {
    var all := a + b;
    if Nondecreasing(all) {
      forall i, j | 0 <= i <= j < |b| ensures b[i] <= b[j] {
        assert all[|a| + i] <= all[|a| + j];
      }
      forall i, j | 0 <= i <= j < |a| ensures a[i] <= a[j] {
        assert all[i] <= all[j];
      }
      assert all[|a| - 1] <= all[|a|];
    }
  }

  lemma GroupIsNondecreasing(c: Context, now: int, last: int)
    ensures Nondecreasing(PresentTimes(GroupTimings(c, now, last)))
  {
    if c.Scheduled() { GroupStaysInItsInterval(c, now, last); }
  }

  lemma OneGroupFollows(due: seq<int>, c: Context, now: int, last: int)
    requires due != []
    ensures Nondecreasing(due + PresentTimes(GroupTimings(c, now, last))) <==>
            Nondecreasing(due) && Follows(c, now, last, due[|due| - 1])
  {
    GroupIsNondecreasing(c, now, last);
    NondecreasingJoined(due, PresentTimes(GroupTimings(c, now, last)));
    FollowsExactly(c, now, last, due[|due| - 1]);
  }

  lemma LastDueIsLast(groups: seq<Group>)
    requires groups != []
    ensures Deadlines(groups) != [] && Deadlines(groups)[|Deadlines(groups)| - 1] == LastDue(groups)
  {
    var g, before := groups[|groups| - 1], groups[..|groups| - 1];
    var times := PresentTimes(GroupTimings(g.context, g.now, Cursor(before)));
    assert Deadlines(groups) == Deadlines(before) + times;
    assert times[|times| - 1] == LastDue(groups);
  }

  /** For any groups whatever, scheduled or not, on any grids and with any intervals: all slots together
      are presented in order if and only if each group follows the one before it. */
  lemma {:induction false} RunInOrderExactly(groups: seq<Group>)
    ensures Nondecreasing(Deadlines(groups)) <==> EachFollows(groups)
  {
    if groups == [] {
    } else {
      var g, before := groups[|groups| - 1], groups[..|groups| - 1];
      RunInOrderExactly(before);
      if before == [] {
        GroupIsNondecreasing(g.context, g.now, 0);
        assert Deadlines(groups) == PresentTimes(GroupTimings(g.context, g.now, 0));
      } else {
        LastDueIsLast(before);
        OneGroupFollows(Deadlines(before), g.context, g.now, Cursor(before));
      }
    }
  }

  /** Scheduled groups all lie on one grid; groups without a schedule may come between. */
  ghost predicate OneGridWithResets(groups: seq<Group>, origin: int, interval: nat) {
    forall k | 0 <= k < |groups| && groups[k].context.Scheduled() ::
      groups[k].context.interval == interval && OnGrid(groups[k].context.base, origin, interval)
  }

  /** The anchor of the last scheduled group, whether or not the cursor still knows it; 0 if there is none. */
  function LastAnchor(groups: seq<Group>): int {
    if groups == [] then 0
    else if groups[|groups| - 1].context.Scheduled() then Cursor(groups)
    else LastAnchor(groups[..|groups| - 1])
  }

  /** The deadlines of the scheduled groups' slots. */
  function ScheduledDeadlines(groups: seq<Group>): seq<int> {
    if groups == [] then []
    else var g, before := groups[|groups| - 1], groups[..|groups| - 1];
      ScheduledDeadlines(before) +
      if g.context.Scheduled() then PresentTimes(GroupTimings(g.context, g.now, Cursor(before))) else []
  }

  /** The group is due after the anchor, or late by as much; only an interval of a single nanosecond,
      which leaves no room for a second slot, allows it one nanosecond less. */
  predicate CatchesUp(c: Context, now: int, anchor: int) {
    var slack := if c.interval == 1 then 1 else 0;
    c.base + slack > anchor || (now > c.base && now + slack >= anchor)
  }

  /** No scheduled group that finds the cursor reset is behind the last scheduled group before it. */
  predicate ResetsCatchUp(groups: seq<Group>) {
    groups == [] ||
    var g, before := groups[|groups| - 1], groups[..|groups| - 1];
      ResetsCatchUp(before) &&
      (g.context.Scheduled() && Cursor(before) == 0 && LastAnchor(before) != 0 ==>
         CatchesUp(g.context, g.now, LastAnchor(before)))
  }

  lemma LastSlotIsLater(c: Context)
    requires c.Scheduled()
    ensures SlotOffset(c, c.interpolatedFrames) > 0 <==> c.interval >= 2
  {
    var n := c.interpolatedFrames;
    SlotOffsetsGrowWithinOneInterval(c, n, n);
    if c.interval >= 2 {
      Monotone(n, 2, c.interval);
      DivideMonotone(n + 1, c.interval * n, n + 1);
      QuotientIs(n + 1, n + 1, 1, 0);
    }
  }

  /** The last slot of a group anchored at `anchor` is due within the interval. */
  predicate DueFrom(due: int, anchor: int, interval: nat) {
    anchor <= due < anchor + interval && (anchor < due <==> interval >= 2)
  }

  /** The last group of these deadlines, if there is one, is anchored at `anchor`, on the grid. */
  ghost predicate Anchored(deadlines: seq<int>, anchor: int, origin: int, interval: nat) {
    (anchor == 0 <==> deadlines == []) &&
    (anchor != 0 ==> OnGrid(anchor, origin, interval) && DueFrom(deadlines[|deadlines| - 1], anchor, interval))
  }

  lemma GroupIsDueFromItsAnchor(c: Context, now: int, last: int)
    requires c.Scheduled()
    ensures DueFrom(GroupTimings(c, now, last)[c.interpolatedFrames].presentAt, NextAnchor(c, now, last), c.interval)
    ensures GroupTimings(c, now, last)[0].presentAt == NextAnchor(c, now, last)
  {
    SlotOffsetsGrowWithinOneInterval(c, 0, c.interpolatedFrames);
    LastSlotIsLater(c);
  }

  /** After a reset, a group on the grid starts no earlier than the last slot of the group anchored at
      `anchor` exactly if it catches up. */
  lemma CatchesUpExactly(c: Context, now: int, anchor: int, due: int)
    requires c.Scheduled() && OnGrid(anchor, c.base, c.interval) && DueFrom(due, anchor, c.interval)
    ensures due <= NextAnchor(c, now, 0) <==> CatchesUp(c, now, anchor)
  {
    var next := NextAnchor(c, now, 0);
    AnchorIsLeast(c, now, 0, anchor);
    if next > anchor { GridPointsAreIntervalsApart(c.base, anchor, next, c.interval); }
    if next < anchor { GridPointsAreIntervalsApart(c.base, next, anchor, c.interval); }
  }

  /** The exact condition, over whole runs on one grid in which groups without a schedule come between:
      the slots of the scheduled groups are presented in order if and only if every group that finds the
      cursor reset catches up. Without a reset nothing is left to check. */
  lemma {:induction false} ResetsInOrderExactly(groups: seq<Group>, origin: int, interval: nat)
    requires OneGridWithResets(groups, origin, interval)
    ensures Nondecreasing(ScheduledDeadlines(groups)) <==> ResetsCatchUp(groups)
    ensures Cursor(groups) == 0 || Cursor(groups) == LastAnchor(groups)
    ensures Anchored(ScheduledDeadlines(groups), LastAnchor(groups), origin, interval)
  {
    if groups == [] {
    } else {
      var g, before := groups[|groups| - 1], groups[..|groups| - 1];
      ResetsInOrderExactly(before, origin, interval);
      if g.context.Scheduled() {
        GroupAfterReset(before, g, origin, interval);
      } else {
        assert ScheduledDeadlines(groups) == ScheduledDeadlines(before);
      }
    }
  }

  lemma GroupAfterReset(before: seq<Group>, g: Group, origin: int, interval: nat)
    requires g.context.Scheduled() && g.context.interval == interval && OnGrid(g.context.base, origin, interval)
    requires Cursor(before) == 0 || Cursor(before) == LastAnchor(before)
    requires Anchored(ScheduledDeadlines(before), LastAnchor(before), origin, interval)
    ensures var next := NextAnchor(g.context, g.now, Cursor(before));
      var times := PresentTimes(GroupTimings(g.context, g.now, Cursor(before)));
      next > 0 && OnGrid(next, origin, interval) && DueFrom(times[|times| - 1], next, interval) &&
      (Nondecreasing(ScheduledDeadlines(before) + times) <==>
         Nondecreasing(ScheduledDeadlines(before)) &&
         (Cursor(before) == 0 && LastAnchor(before) != 0 ==> CatchesUp(g.context, g.now, LastAnchor(before))))
  {
    var c, cursor, anchor, earlier := g.context, Cursor(before), LastAnchor(before), ScheduledDeadlines(before);
    var next, times := NextAnchor(c, g.now, cursor), PresentTimes(GroupTimings(c, g.now, cursor));
    GridShared(cursor, origin, c.base, interval);
    AnchorIsLeast(c, g.now, cursor, 0);
    GridShared(next, origin, c.base, interval);
    GroupIsDueFromItsAnchor(c, g.now, cursor);
    GroupIsNondecreasing(c, g.now, cursor);
    if anchor == 0 {
      assert earlier + times == times;
    } else {
      NondecreasingJoined(earlier, times);
      GridShared(anchor, origin, c.base, interval);
      if cursor == 0 {
        CatchesUpExactly(c, g.now, anchor, earlier[|earlier| - 1]);
      } else {
        GridPointsAreIntervalsApart(origin, anchor, next, interval);
      }
    }
  }

  /** A group without a schedule resets the cursor, and with it the order: of three groups due at the
      same base the second has to slide a period, but after a reset the third does not slide. It does not
      catch up, and is presented before the second. */
  lemma ResetLosesTheOrder()
    ensures var g, native := Group(Context(100, 10, 1), 0), Group(Context(100, 10, 0), 0);
      OneGridWithResets([g, g, native, g], 100, 10) && !ResetsCatchUp([g, g, native, g]) &&
      !Nondecreasing(ScheduledDeadlines([g, g, native, g])) && !Nondecreasing(Deadlines([g, g, native, g]))
  {
    var g, native := Group(Context(100, 10, 1), 0), Group(Context(100, 10, 0), 0);
    var two, three, four := [g, g], [g, g, native], [g, g, native, g];
    assert 100 == 100 + 0 * 10;
    assert four[..3] == three && three[..2] == two && two[..1] == [g] && [g][..0] == [];
    assert Cursor([g]) == 100;
    assert Cursor(two) == 110 && Cursor(three) == 0;
    assert LastAnchor(three) == LastAnchor(two) == 110;
    assert !CatchesUp(g.context, g.now, 110);
    ResetsInOrderExactly(four, 100, 10);
    RunInOrderExactly(four);
    assert LastDue(three) > 100;
  }
}
