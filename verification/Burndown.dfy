/** The ideal burndown line, and the one that follows scope changes.
    Fractions are exact: the source's float arithmetic truncated to an integer is integer division here. */
module Burndown {
  import opened Sequences

  const DAY: int := 86_400_000_000_000   // nanoseconds

  /** Start and end in nanoseconds; a date that was never set is absent. */
  datatype Sprint = Sprint(start: Option<int>, end: Option<int>)

  datatype Action = Added | Removed | OtherAction

  datatype ScopeChange = ScopeChange(date: int, action: Action)

  datatype Point = Point(day: nat, remaining: int, completed: int)

  /** Whole days, rounded towards zero. */
  function Days(duration: int): int {
    if duration >= 0 then duration / DAY else -((-duration) / DAY)
  }

  predicate Dated(sprint: Sprint) {
    sprint.start.Some? && sprint.end.Some?
  }

  function TotalDays(sprint: Sprint): int
    requires Dated(sprint)
  {
    Days(sprint.end.value - sprint.start.value) + 1
  }

  // ----- the plain line

  function Clamped(x: int): nat {
    if x < 0 then 0 else x
  }

  function IdealRemaining(total: nat, totalDays: nat, day: nat): nat
    requires totalDays > 0
  {
    Clamped(total - day * total / totalDays)
  }

  function PointAt(total: nat, day: nat, remaining: nat): Point {
    Point(day, remaining, total - remaining)
  }

  /** A 64-bit result. */
  function Wrapped(x: int): int {
    (x + 0x8000_0000_0000_0000) % 0x1_0000_0000_0000_0000 - 0x8000_0000_0000_0000
  }

  /** What remains on a day of the plain line. For a sprint of zero days the program multiplies zero by infinity;
      the integer it makes of the result depends on the machine and is the parameter `nan`. */
  function PlainRemaining(total: nat, totalDays: nat, day: nat, nan: int): nat {
    if totalDays == 0 then Clamped(Wrapped(total - nan)) else IdealRemaining(total, totalDays, day)
  }

  /** The plain line: nothing without dates or issues, or with a negative count of days. */
  function PlainLine(sprint: Sprint, total: nat, nan: int): seq<Point> {
    if !Dated(sprint) || total == 0 || TotalDays(sprint) < 0 then []
    else
      var totalDays := TotalDays(sprint);
      seq(totalDays + 1, i requires i >= 0 => PointAt(total, i, PlainRemaining(total, totalDays, i, nan)))
  }

  method GenerateIdealLine(sprint: Sprint, total: nat, nan: int) returns (points: seq<Point>)
    ensures points == PlainLine(sprint, total, nan)
  {
    points := [];
    if !Dated(sprint) || total == 0 {
      return;
    }
    var totalDays := TotalDays(sprint);
    if totalDays < 0 {
      return;
    }
    for i := 0 to totalDays + 1
      invariant |points| == i
      invariant forall k :: 0 <= k < i ==> points[k] == PointAt(total, k, PlainRemaining(total, totalDays, k, nan))
    {
      var remaining := if totalDays == 0 then Wrapped(total - nan) else total - i * total / totalDays;
      if remaining < 0 {
        remaining := 0;
      }
      points := points + [Point(i, remaining, total - remaining)];
    }
  }

  // ----- the line that follows scope changes

  function ChangeOf(e: ScopeChange): int {
    match e.action
    case Added => 1
    case Removed => -1
    case OtherAction => 0
  }

  predicate InWindow(start: int, totalDays: int, e: ScopeChange) {
    0 < Days(e.date - start) <= totalDays
  }

  /** The net change on one day of the window. */
  function NetOn(start: int, totalDays: int, events: seq<ScopeChange>, day: int): int {
    if events == [] then 0
    else
      var e := events[|events| - 1];
      NetOn(start, totalDays, events[..|events| - 1], day)
      + (if InWindow(start, totalDays, e) && Days(e.date - start) == day then ChangeOf(e) else 0)
  }

  /** The net change of the whole window. */
  function NetInWindow(start: int, totalDays: int, events: seq<ScopeChange>): int {
    if events == [] then 0
    else
      var e := events[|events| - 1];
      NetInWindow(start, totalDays, events[..|events| - 1])
      + (if InWindow(start, totalDays, e) then ChangeOf(e) else 0)
  }

  /** A straight piece of the line: from `remaining` on day `start` down to zero at the sprint end. */
  datatype Segment = Segment(start: nat, remaining: nat)

  function IdealAt(totalDays: nat, seg: Segment, day: nat): nat
    requires seg.start <= day
  {
    if totalDays <= seg.start then seg.remaining
    else Clamped(seg.remaining - (day - seg.start) * seg.remaining / (totalDays - seg.start))
  }

  /** The segment in force on a day. `net` gives the change of each day. */
  function SegmentOn(totalDays: nat, initial: nat, net: int -> int, day: nat): (seg: Segment)
    ensures seg.start <= day
  {
    if day == 0 then Segment(0, initial)
    else
      var seg := SegmentOn(totalDays, initial, net, day - 1);
      if net(day) != 0 then Segment(day, Clamped(IdealAt(totalDays, seg, day) + net(day))) else seg
  }

  function RemainingOn(totalDays: nat, initial: nat, net: int -> int, day: nat): nat {
    IdealAt(totalDays, SegmentOn(totalDays, initial, net, day), day)
  }

  /** The line for a dated sprint of at least one day. */
  function ScopedLine(start: int, totalDays: nat, total: nat, events: seq<ScopeChange>): seq<Point> {
    var net := (day: int) => NetOn(start, totalDays, events, day);
    var initial := Clamped(total - NetInWindow(start, totalDays, events));
    seq(totalDays + 1, i requires i >= 0 => PointAt(total, i, RemainingOn(totalDays, initial, net, i)))
  }

  function ScopeAwareLine(sprint: Sprint, total: nat, events: seq<ScopeChange>, nan: int): seq<Point> {
    if events == [] then PlainLine(sprint, total, nan)
    else if !Dated(sprint) || TotalDays(sprint) <= 0 then []
    else ScopedLine(sprint.start.value, TotalDays(sprint), total, events)
  }

  // ----- what the line means

  lemma MulDivMonotone(a: nat, b: nat, r: nat, d: nat)
    requires a <= b && d > 0
    ensures a * r / d <= b * r / d
  {
    assert a * r <= b * r;
    DivMonotone(a * r, b * r, d);
  }

  lemma MulAtLeast(k: int, d: nat)
    requires k >= 1
    ensures k * d >= d
  {
  }

  lemma DivMonotone(x: nat, y: nat, d: nat)
    requires x <= y && d > 0
    ensures x / d <= y / d
  {
    var p, q := x / d, y / d;
    assert x == d * p + x % d && y == d * q + y % d;
    Distribute(p, q, d);
    assert (p - q) * d < d;
    if p - q >= 1 {
      MulAtLeast(p - q, d);
    }
  }

  lemma DivSelf(d: nat, r: nat)
    requires d > 0
    ensures d * r / d == r
  {
    var x := d * r;
    var q := x / d;
    assert x == d * q + x % d;
    assert (r - q) * d == x % d && (q - r) * d == -(x % d) by {
      Distribute(r, q, d);
      Distribute(q, r, d);
    }
    if r - q >= 1 {
      MulAtLeast(r - q, d);
    }
    if q - r >= 1 {
      MulAtLeast(q - r, d);
    }
  }

  /** A segment starts where it says. */
  lemma StartsAt(totalDays: nat, seg: Segment)
    ensures IdealAt(totalDays, seg, seg.start) == seg.remaining
  {
    if totalDays > seg.start {
      ZeroDivided(seg.remaining, totalDays - seg.start);
    }
  }

  lemma ZeroDivided(r: int, d: int)
    requires d > 0
    ensures 0 * r / d == 0
  {
    assert 0 * r == 0;
  }

  /** On every day the line is the exact straight line of its segment, rounded up to whole issues. */
  lemma IdealAtRoundsUp(totalDays: nat, seg: Segment, day: nat)
    requires seg.start <= day <= totalDays && seg.start < totalDays
    ensures var r, d := IdealAt(totalDays, seg, day), totalDays - seg.start;
            (r - 1) * d < seg.remaining * (totalDays - day) <= r * d
  {
  }

  lemma Distribute(a: int, b: int, d: int)
    ensures (a - b) * d == a * d - b * d && (a - b - 1) * d == a * d - b * d - d
    ensures d * (a - b) == a * d - b * d
  {
  }

  /** Between scope changes the line never rises. */
  lemma NeverRisesBetweenChanges(totalDays: nat, initial: nat, net: int -> int, day: nat)
    requires 0 < day <= totalDays && net(day) == 0
    ensures RemainingOn(totalDays, initial, net, day) <= RemainingOn(totalDays, initial, net, day - 1)
  {
    var seg := SegmentOn(totalDays, initial, net, day - 1);
    if seg.start < totalDays {
      MulDivMonotone(day - 1 - seg.start, day - seg.start, seg.remaining, totalDays - seg.start);
    }
  }

  /** The same changes but for those of one day. */
  function Without(net: int -> int, day: int): int -> int {
    (d: int) => if d == day then 0 else net(d)
  }

  lemma {:induction false} SegmentOfEarlierChanges(
    totalDays: nat, initial: nat, net: int -> int, other: int -> int, day: nat)
    requires forall d :: 0 < d <= day ==> net(d) == other(d)
    ensures SegmentOn(totalDays, initial, net, day) == SegmentOn(totalDays, initial, other, day)
  {
    if day > 0 {
      SegmentOfEarlierChanges(totalDays, initial, net, other, day - 1);
    }
  }

  /** On every day the line is where it would have been without that day's changes,
      moved by the net change and clamped at zero. */
  lemma MovesByNetChange(totalDays: nat, initial: nat, net: int -> int, day: nat)
    requires 0 < day
    ensures RemainingOn(totalDays, initial, net, day)
            == Clamped(RemainingOn(totalDays, initial, Without(net, day), day) + net(day))
    ensures net(day) != 0 ==> SegmentOn(totalDays, initial, net, day).start == day
  {
    SegmentOfEarlierChanges(totalDays, initial, net, Without(net, day), day - 1);
    StartsAt(totalDays, SegmentOn(totalDays, initial, net, day));
  }

  /** The plan ends with nothing left but what the last day itself added. */
  lemma EndsAtZero(totalDays: nat, initial: nat, net: int -> int)
    requires totalDays > 0
    ensures RemainingOn(totalDays, initial, net, totalDays) == Clamped(net(totalDays))
  {
    var seg := SegmentOn(totalDays, initial, net, totalDays - 1);
    DivSelf(totalDays - seg.start, seg.remaining);
    StartsAt(totalDays, SegmentOn(totalDays, initial, net, totalDays));
  }

  /** One point for each day, never negative, and every issue either remaining or completed. */
  predicate Accounts(points: seq<Point>, total: nat) {
    forall i :: 0 <= i < |points| ==>
      points[i].day == i && points[i].remaining >= 0 && points[i].remaining + points[i].completed == total
  }

  // ----- the line in terms of the events themselves

  /** The number of events with some property. */
  ghost function Count(events: seq<ScopeChange>, p: ScopeChange -> bool): nat {
    |set k | 0 <= k < |events| && p(events[k])|
  }

  /** Events with the given action from day `first` up to and including day `last`, a day being 24 hours
      from the start of the sprint on. */
  function During(start: int, first: int, last: int, action: Action): ScopeChange -> bool {
    (e: ScopeChange) =>
      && e.action == action
      && start + first * (24 * 60 * 60 * 1_000_000_000) <= e.date
      && e.date < start + (last + 1) * (24 * 60 * 60 * 1_000_000_000)
  }

  ghost function AddedDuring(start: int, first: int, last: int, events: seq<ScopeChange>): nat {
    Count(events, During(start, first, last, Added))
  }

  ghost function RemovedDuring(start: int, first: int, last: int, events: seq<ScopeChange>): nat {
    Count(events, During(start, first, last, Removed))
  }

  lemma CountPush(events: seq<ScopeChange>, p: ScopeChange -> bool)
    requires events != []
    ensures Count(events, p)
            == Count(events[..|events| - 1], p) + (if p(events[|events| - 1]) then 1 else 0)
  {
    var last := |events| - 1;
    var all, earlier := set k | 0 <= k < |events| && p(events[k]), set k | 0 <= k < last && p(events[..last][k]);
    assert all == earlier + (if p(events[last]) then {last} else {});
  }

  lemma CountSome(events: seq<ScopeChange>, p: ScopeChange -> bool)
    ensures Count(events, p) > 0 ==> exists k :: 0 <= k < |events| && p(events[k])
  {
    var all := set k | 0 <= k < |events| && p(events[k]);
    if all != {} {
      var k :| k in all;
    }
  }

  /** From the first day on, the day of an instant is the number of whole days since the start. */
  lemma DayOfInstant(x: int, day: int)
    requires day > 0
    ensures Days(x) >= day <==> x >= day * (24 * 60 * 60 * 1_000_000_000)
  {
  }

  lemma EventDay(start: int, e: ScopeChange, first: int, last: int)
    requires 0 < first <= last + 1
    ensures first <= Days(e.date - start) <= last <==> During(start, first, last, e.action)(e)
  {
    DayOfInstant(e.date - start, first);
    DayOfInstant(e.date - start, last + 1);
  }

  /** A day's net change is the number of issues added that day less the number removed. */
  lemma {:induction false} NetIsAddedLessRemoved(start: int, totalDays: int, events: seq<ScopeChange>, day: int)
    requires 0 < day <= totalDays
    ensures NetOn(start, totalDays, events, day)
            == AddedDuring(start, day, day, events) - RemovedDuring(start, day, day, events)
  {
    if events != [] {
      NetIsAddedLessRemoved(start, totalDays, events[..|events| - 1], day);
      CountPush(events, During(start, day, day, Added));
      CountPush(events, During(start, day, day, Removed));
      EventDay(start, events[|events| - 1], day, day);
    }
  }

  /** And so it is for the whole sprint, the start day aside. */
  lemma {:induction false} WindowIsAddedLessRemoved(start: int, totalDays: nat, events: seq<ScopeChange>)
    ensures NetInWindow(start, totalDays, events)
            == AddedDuring(start, 1, totalDays, events) - RemovedDuring(start, 1, totalDays, events)
  {
    if events != [] {
      WindowIsAddedLessRemoved(start, totalDays, events[..|events| - 1]);
      CountPush(events, During(start, 1, totalDays, Added));
      CountPush(events, During(start, 1, totalDays, Removed));
      EventDay(start, events[|events| - 1], 1, totalDays);
    }
  }

  /** The drawn line starts at the scope of the start day: the total less the issues that were added since,
      plus those removed. */
  lemma LineStartsAtFirstScope(start: int, totalDays: nat, total: nat, events: seq<ScopeChange>)
    ensures ScopedLine(start, totalDays, total, events)[0].remaining
            == Clamped(total - AddedDuring(start, 1, totalDays, events) + RemovedDuring(start, 1, totalDays, events))
  {
    var net := (day: int) => NetOn(start, totalDays, events, day);
    var initial := Clamped(total - NetInWindow(start, totalDays, events));
    WindowIsAddedLessRemoved(start, totalDays, events);
    StartsAt(totalDays, SegmentOn(totalDays, initial, net, 0));
  }

  /** The drawn line, point by point: without more issues added than removed that day it does not rise, and it ends
      with what the last day added less what it removed. */
  lemma LineFollowsScope(start: int, totalDays: nat, total: nat, events: seq<ScopeChange>, i: nat)
    requires 0 < i <= totalDays
    ensures var points := ScopedLine(start, totalDays, total, events);
            var added, removed := AddedDuring(start, i, i, events), RemovedDuring(start, i, i, events);
            && (added <= removed ==> points[i].remaining <= points[i - 1].remaining)
            && (i == totalDays ==> points[i].remaining == Clamped(added - removed))
  {
    var net := (day: int) => NetOn(start, totalDays, events, day);
    var initial := Clamped(total - NetInWindow(start, totalDays, events));
    NetIsAddedLessRemoved(start, totalDays, events, i);
    SegmentOfEarlierChanges(totalDays, initial, net, Without(net, i), i - 1);
    NeverRisesBetweenChanges(totalDays, initial, Without(net, i), i);
    MovesByNetChange(totalDays, initial, net, i);
    EndsAtZero(totalDays, initial, net);
  }

  /** A rise needs an issue added on that very day. */
  lemma RiseNeedsAddition(start: int, totalDays: nat, total: nat, events: seq<ScopeChange>, i: nat)
    requires 0 < i <= totalDays
    requires var points := ScopedLine(start, totalDays, total, events);
             points[i].remaining > points[i - 1].remaining
    ensures exists k :: 0 <= k < |events| && During(start, i, i, Added)(events[k])
  {
    LineFollowsScope(start, totalDays, total, events, i);
    CountSome(events, During(start, i, i, Added));
  }

  /** A line has one point more than the sprint has days, and a day that has only begun counts. */
  lemma PointPerDay(sprint: Sprint, total: nat, events: seq<ScopeChange>, nan: int, whole: nat, rest: nat)
    requires Dated(sprint) && rest < 24 * 60 * 60 * 1_000_000_000
    requires sprint.end.value - sprint.start.value == whole * (24 * 60 * 60 * 1_000_000_000) + rest
    ensures total > 0 ==> |PlainLine(sprint, total, nan)| == whole + 2
    ensures events != [] ==> |ScopeAwareLine(sprint, total, events, nan)| == whole + 2
  {
    var duration := sprint.end.value - sprint.start.value;
    if whole > 0 {
      DayOfInstant(duration, whole);
    }
    DayOfInstant(duration, whole + 1);
  }

  /** A sprint that ends before it starts has two points if that is by less than 24 hours, no point if it is by
      48 hours or more, and in between a single point, unless there are events. */
  lemma PointsOfNegativeSprint(sprint: Sprint, total: nat, events: seq<ScopeChange>, nan: int)
    requires Dated(sprint) && sprint.end.value < sprint.start.value
    ensures var early := sprint.start.value - sprint.end.value;
            var day := 24 * 60 * 60 * 1_000_000_000;
            var points := if early < day then 2 else if early < 2 * day then 1 else 0;
            && (total > 0 ==> |PlainLine(sprint, total, nan)| == points)
            && (events != [] ==> |ScopeAwareLine(sprint, total, events, nan)| == if points == 2 then 2 else 0)
  {
    var early := sprint.start.value - sprint.end.value;
    assert Days(-early) == -Days(early);
    DayOfInstant(early, 1);
    DayOfInstant(early, 2);
  }

  /** The single point of a sprint of zero days: what the machine makes of the product counts as completed, and if that
      is the least 64-bit integer, the difference wraps around and nothing remains. */
  lemma PointOfZeroDays(sprint: Sprint, total: nat, nan: int)
    requires Dated(sprint) && TotalDays(sprint) == 0 && 0 < total < 0x8000_0000_0000_0000
    ensures 0 <= nan <= total ==> PlainLine(sprint, total, nan) == [Point(0, total - nan, nan)]
    ensures nan == -0x8000_0000_0000_0000 ==> PlainLine(sprint, total, nan) == [Point(0, 0, total)]
  {
  }

  lemma {:induction false} NothingInWindow(start: int, totalDays: int, events: seq<ScopeChange>, day: int)
    requires forall k :: 0 <= k < |events| ==> !InWindow(start, totalDays, events[k])
    ensures NetOn(start, totalDays, events, day) == 0 && NetInWindow(start, totalDays, events) == 0
  {
    if events != [] {
      NothingInWindow(start, totalDays, events[..|events| - 1], day);
    }
  }

  lemma {:induction false} OneSegment(totalDays: nat, initial: nat, net: int -> int, day: nat)
    requires forall d :: 0 < d <= day ==> net(d) == 0
    ensures SegmentOn(totalDays, initial, net, day) == Segment(0, initial)
  {
    if day > 0 {
      OneSegment(totalDays, initial, net, day - 1);
    }
  }

  /** Events outside the sprint leave the plain line as it is. */
  lemma OutsideEventsKeepLine(start: int, totalDays: nat, total: nat, events: seq<ScopeChange>, i: nat)
    requires totalDays > 0 && i <= totalDays
    requires forall k :: 0 <= k < |events| ==> !InWindow(start, totalDays, events[k])
    ensures ScopedLine(start, totalDays, total, events)[i] == PointAt(total, i, IdealRemaining(total, totalDays, i))
  {
    var net := (day: int) => NetOn(start, totalDays, events, day);
    forall d ensures net(d) == 0 && NetInWindow(start, totalDays, events) == 0 {
      NothingInWindow(start, totalDays, events, d);
    }
    OneSegment(totalDays, total, net, i);
  }

  method ReplayEvents(start: int, totalDays: int, total: nat, events: seq<ScopeChange>)
    returns (delta: map<int, int>, initial: int)
    ensures forall day :: NetOn(start, totalDays, events, day) == if day in delta then delta[day] else 0
    ensures initial == Clamped(total - NetInWindow(start, totalDays, events))
    ensures forall day :: 0 < day <= totalDays ==>
              (if day in delta then delta[day] else 0)
              == AddedDuring(start, day, day, events) - RemovedDuring(start, day, day, events)
    ensures totalDays >= 0 ==>
              initial == Clamped(total - AddedDuring(start, 1, totalDays, events)
                                 + RemovedDuring(start, 1, totalDays, events))
  {
    delta := map[];
    initial := total;
    for k := 0 to |events|
      invariant forall day :: NetOn(start, totalDays, events[..k], day) == if day in delta then delta[day] else 0
      invariant initial == total - NetInWindow(start, totalDays, events[..k])
    {
      assert events[..k + 1][..k] == events[..k];
      var change := 0;
      match events[k].action {
        case Added => change := 1;
        case Removed => change := -1;
        case OtherAction =>
      }
      var d := Days(events[k].date - start);
      if d <= 0 || d > totalDays {
        continue;
      }
      delta := delta[d := (if d in delta then delta[d] else 0) + change];
      initial := initial - change;
    }
    assert events[..|events|] == events;
    if initial < 0 {
      initial := 0;
    }
    forall day | 0 < day <= totalDays
      ensures NetOn(start, totalDays, events, day)
              == AddedDuring(start, day, day, events) - RemovedDuring(start, day, day, events)
    {
      NetIsAddedLessRemoved(start, totalDays, events, day);
    }
    if totalDays >= 0 {
      WindowIsAddedLessRemoved(start, totalDays, events);
    }
  }

  /** Plain and scope-aware line of a sprint without changes in its window agree, but for two cases: a sprint with days
      and only outside events but no issues, and a sprint of zero days with such events and with issues. */
  lemma LinesAgreeIff(sprint: Sprint, total: nat, events: seq<ScopeChange>, nan: int)
    requires Dated(sprint) ==>
               forall k :: 0 <= k < |events| ==> !InWindow(sprint.start.value, TotalDays(sprint), events[k])
    ensures ScopeAwareLine(sprint, total, events, nan) == PlainLine(sprint, total, nan)
            <==> !Dated(sprint) || TotalDays(sprint) < 0 || events == [] || (total > 0 <==> TotalDays(sprint) > 0)
  {
    if Dated(sprint) && TotalDays(sprint) > 0 && events != [] {
      var start, totalDays := sprint.start.value, TotalDays(sprint);
      forall i: nat | i <= totalDays
        ensures ScopedLine(start, totalDays, total, events)[i]
                == PointAt(total, i, IdealRemaining(total, totalDays, i))
      {
        OutsideEventsKeepLine(start, totalDays, total, events, i);
      }
    }
  }

  method GenerateIdealLineScoped(sprint: Sprint, total: nat, events: seq<ScopeChange>, nan: int)
    returns (points: seq<Point>)
    ensures points == ScopeAwareLine(sprint, total, events, nan)
    ensures points != [] ==> Dated(sprint) && |points| == TotalDays(sprint) + 1
    ensures Accounts(points, total)
  {
    if events == [] {
      points := GenerateIdealLine(sprint, total, nan);
      return;
    }
    points := [];
    if !Dated(sprint) {
      return;
    }
    var totalDays := TotalDays(sprint);
    if totalDays <= 0 {
      return;
    }
    var start := sprint.start.value;
    var delta, initial := ReplayEvents(start, totalDays, total, events);
    ghost var net := (day: int) => NetOn(start, totalDays, events, day);
    points := DrawLine(totalDays, total, net, delta, initial);
  }

  method DrawLine(totalDays: nat, total: nat, ghost net: int -> int, delta: map<int, int>, initial: nat)
    returns (points: seq<Point>)
    requires forall day :: net(day) == if day in delta then delta[day] else 0
    ensures |points| == totalDays + 1
    ensures forall k :: 0 <= k <= totalDays ==> points[k] == PointAt(total, k, RemainingOn(totalDays, initial, net, k))
  {
    points := [];
    var segment := Segment(0, initial);
    for i := 0 to totalDays + 1
      invariant segment == SegmentOn(totalDays, initial, net, if i == 0 then 0 else i - 1)
      invariant |points| == i
      invariant forall k :: 0 <= k < i ==> points[k] == PointAt(total, k, RemainingOn(totalDays, initial, net, k))
    {
      segment := NextSegment(totalDays, segment, i, if i in delta then delta[i] else 0);
      var remaining := IdealAt(totalDays, segment, i);
      points := points + [Point(i, remaining, total - remaining)];
    }
  }

  /** The segment in force after the changes of a day. */
  method NextSegment(totalDays: nat, segment: Segment, day: nat, change: int) returns (next: Segment)
    requires segment.start <= day
    ensures next == if day > 0 && change != 0 then Segment(day, Clamped(IdealAt(totalDays, segment, day) + change))
                    else segment
  {
    next := segment;
    if change != 0 && day > 0 {
      var moved := IdealAt(totalDays, segment, day) + change;
      if moved < 0 {
        moved := 0;
      }
      next := Segment(day, moved);
    }
  }
}
