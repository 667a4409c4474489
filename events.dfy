/** Automation events as both timelines store them, the argument lists they
    are scheduled with, the calls a replay issues on a target parameter, and
    the filter that `cancelScheduledValues` applies. */
module Events {

  datatype Option<T> = None | Some(value: T)

  /** The `type` string of an event: also the name of the target method that schedules it. */
  datatype EventKind =
    | SetValueAtTime
    | LinearRampToValueAtTime
    | ExponentialRampToValueAtTime
    | SetTargetAtTime
    | SetValueCurveAtTime

  /** One scheduled event. `cancelTime` is only ever attached to the two
      open-ended kinds, by `cancelAndHoldAtTime`. */
  datatype Event =
    | SetValue(value: real, time: real)
    | LinearRamp(value: real, time: real)
    | ExponentialRamp(value: real, time: real)
    | SetTarget(value: real, time: real, timeConstant: real, cancelTime: Option<real>)
    | SetValueCurve(curve: seq<real>, time: real, duration: real, cancelTime: Option<real>)
  {
    function Kind(): EventKind
    {
      match this
      case SetValue(_, _) => SetValueAtTime
      case LinearRamp(_, _) => LinearRampToValueAtTime
      case ExponentialRamp(_, _) => ExponentialRampToValueAtTime
      case SetTarget(_, _, _, _) => SetTargetAtTime
      case SetValueCurve(_, _, _, _) => SetValueCurveAtTime
    }

    predicate IsRamp()
    {
      LinearRamp? || ExponentialRamp?
    }

    /** Segments that run on past their own time until something supersedes them. */
    predicate IsOpenEnded()
    {
      SetTarget? || SetValueCurve?
    }

    /** `typeof e.value === "number"`: every kind but a curve carries a value. */
    predicate HasValue()
    {
      !SetValueCurve?
    }

    predicate IsCancelled()
    {
      IsOpenEnded() && cancelTime.Some?
    }

    /** What callers of the scheduling methods must supply: the source divides
        by the curve duration, and a zero one makes the value of a curve of
        two or more samples NaN. */
    predicate WellFormed()
    {
      SetValueCurve? ==> duration != 0.0 || |curve| <= 1
    }

    /** The same event without a cancel time. */
    function Uncancelled(): Event
    {
      match this
      case SetTarget(v, t, c, _) => SetTarget(v, t, c, None)
      case SetValueCurve(c, t, d, _) => SetValueCurve(c, t, d, None)
      case _ => this
    }
  }

  /** Two events occupy the same slot of a timeline: same time and same kind. */
  predicate SameSlot(a: Event, b: Event)
  {
    a.time == b.time && a.Kind() == b.Kind()
  }

  predicate Sorted(s: seq<Event>)
  {
    forall i, j :: 0 <= i < j < |s| ==> s[i].time <= s[j].time
  }

  predicate AllWellFormed(s: seq<Event>)
  {
    forall i :: 0 <= i < |s| ==> s[i].WellFormed()
  }

  /** At most one event per (time, kind). */
  predicate UniqueSlots(s: seq<Event>)
  {
    forall i, j :: 0 <= i < j < |s| ==> !SameSlot(s[i], s[j])
  }

  /** The first branch of both `_insertEvent` methods: an empty list, or a
      new time after the last event's. */
  predicate IsAppend(s: seq<Event>, e: Event)
  {
    s == [] || s[|s| - 1].time < e.time
  }

  /** `events.splice(at, deleteCount, e)`. */
  function Splice(s: seq<Event>, at: nat, deleteCount: nat, e: Event): (r: seq<Event>)
    requires at + deleteCount <= |s|
    ensures |r| == |s| - deleteCount + 1
    ensures r[at] == e && r[..at] == s[..at] && r[at + 1..] == s[at + deleteCount..]
  {
    s[..at] + [e] + s[at + deleteCount..]
  }

  /** One element of an `args` array: a number or a curve. */
  datatype Arg = Num(x: real) | Samples(xs: seq<real>)

  /** The `args` array an event is scheduled with. */
  function Args(e: Event): seq<Arg>
  {
    match e
    case SetValue(v, t) => [Num(v), Num(t)]
    case LinearRamp(v, t) => [Num(v), Num(t)]
    case ExponentialRamp(v, t) => [Num(v), Num(t)]
    case SetTarget(v, t, c, _) => [Num(v), Num(t), Num(c)]
    case SetValueCurve(c, t, d, _) => [Samples(c), Num(t), Num(d)]
  }

  /** The event that a scheduling call of the given kind with the given
      arguments creates, if the arguments fit the kind. */
  function ScheduledEvent(kind: EventKind, args: seq<Arg>): Option<Event>
  {
    match kind
    case SetValueAtTime =>
      if |args| == 2 && args[0].Num? && args[1].Num? then Some(SetValue(args[0].x, args[1].x)) else None
    case LinearRampToValueAtTime =>
      if |args| == 2 && args[0].Num? && args[1].Num? then Some(LinearRamp(args[0].x, args[1].x)) else None
    case ExponentialRampToValueAtTime =>
      if |args| == 2 && args[0].Num? && args[1].Num? then Some(ExponentialRamp(args[0].x, args[1].x)) else None
    case SetTargetAtTime =>
      if |args| == 3 && args[0].Num? && args[1].Num? && args[2].Num?
      then Some(SetTarget(args[0].x, args[1].x, args[2].x, None)) else None
    case SetValueCurveAtTime =>
      if |args| == 3 && args[0].Samples? && args[1].Num? && args[2].Num?
      then Some(SetValueCurve(args[0].xs, args[1].x, args[2].x, None)) else None
  }

  /** Replaying an event's kind and `args` on a target schedules the same
      event there, less the cancel time (which a replay sends separately). */
  lemma ArgsRoundTrip(e: Event)
    ensures ScheduledEvent(e.Kind(), Args(e)) == Some(e.Uncancelled())
  {
  }

  /** A call issued on the target parameter. */
  datatype TargetCall =
    | CallSchedule(kind: EventKind, args: seq<Arg>)
    | CallCancelScheduledValues(time: real)
    | CallCancelAndHoldAtTime(time: real)

  function ScheduleCall(e: Event): TargetCall
  {
    CallSchedule(e.Kind(), Args(e))
  }

  /** The calls one event replays to: its scheduling call, then a
      cancel-and-hold at its cancel time when it has one and the target
      supports that call. */
  function ReplayEvent(e: Event, canHold: bool): seq<TargetCall>
  {
    [ScheduleCall(e)] + if canHold && e.IsCancelled() then [CallCancelAndHoldAtTime(e.cancelTime.value)] else []
  }

  /** The calls a timeline replays to, event by event in list order. */
  function Replay(s: seq<Event>, canHold: bool): seq<TargetCall>
  {
    if s == [] then [] else Replay(s[..|s| - 1], canHold) + ReplayEvent(s[|s| - 1], canHold)
  }

  lemma {:induction false} ReplayAppend(a: seq<Event>, b: seq<Event>, canHold: bool)
    ensures Replay(a + b, canHold) == Replay(a, canHold) + Replay(b, canHold)
    decreases |b|
  {
    if b == [] {
      assert a + b == a;
    } else {
      var b' := b[..|b| - 1];
      assert (a + b)[..|a + b| - 1] == a + b';
      ReplayAppend(a, b', canHold);
    }
  }

  /** Replaying one more event of a list appends that event's calls. */
  lemma ReplayStep(s: seq<Event>, i: nat, canHold: bool)
    requires i < |s|
    ensures Replay(s[..i + 1], canHold) == Replay(s[..i], canHold) + ReplayEvent(s[i], canHold)
  {
    assert s[..i + 1][..i] == s[..i];
  }

  /** Replay fidelity: event `i`'s calls start at the position after the calls
      of the events before it; the first is its scheduling call with its own
      `args`, immediately followed by a cancel-and-hold at its cancel time
      when it carries one and the target supports it. */
  lemma ReplayPosition(s: seq<Event>, i: nat, canHold: bool)
    requires i < |s|
    ensures var p := |Replay(s[..i], canHold)|;
      && p < |Replay(s, canHold)|
      && Replay(s, canHold)[p] == ScheduleCall(s[i])
      && (canHold && s[i].IsCancelled() ==>
            p + 1 < |Replay(s, canHold)| &&
            Replay(s, canHold)[p + 1] == CallCancelAndHoldAtTime(s[i].cancelTime.value))
  {
    assert s == s[..i] + ([s[i]] + s[i + 1..]);
    ReplayAppend(s[..i], [s[i]] + s[i + 1..], canHold);
    ReplayAppend([s[i]], s[i + 1..], canHold);
    assert Replay([s[i]], canHold) == ReplayEvent(s[i], canHold) by {
      assert [s[i]][..0] == [];
    }
  }

  /** Number of events carrying a cancel time. */
  function CancelledCount(s: seq<Event>): nat
  {
    if s == [] then 0 else CancelledCount(s[..|s| - 1]) + if s[|s| - 1].IsCancelled() then 1 else 0
  }

  /** A replay issues one scheduling call per event plus one cancel-and-hold
      per cancelled event when the target supports it, and nothing else. */
  lemma {:induction false} ReplayLength(s: seq<Event>, canHold: bool)
    ensures |Replay(s, canHold)| == |s| + if canHold then CancelledCount(s) else 0
  {
    if s != [] {
      ReplayLength(s[..|s| - 1], canHold);
    }
  }

  /** Without the cancel-and-hold capability, a replay is exactly the events'
      scheduling calls in list order. */
  lemma {:induction false} ReplayWithoutHold(s: seq<Event>)
    ensures |Replay(s, false)| == |s|
    ensures forall i :: 0 <= i < |s| ==> Replay(s, false)[i] == ScheduleCall(s[i])
  {
    if s != [] {
      ReplayWithoutHold(s[..|s| - 1]);
    }
  }

  /** `events.filter(e => e.time < t)`. */
  function Before(s: seq<Event>, t: real): (r: seq<Event>)
    ensures |r| <= |s|
    ensures forall e :: e in r ==> e in s && e.time < t
    ensures forall e :: e in s && e.time < t ==> e in r
  {
    if s == [] then [] else (if s[0].time < t then [s[0]] else []) + Before(s[1..], t)
  }

  /** The filter keeps the original order: it distributes over concatenation. */
  lemma {:induction false} BeforeAppend(a: seq<Event>, b: seq<Event>, t: real)
    ensures Before(a + b, t) == Before(a, t) + Before(b, t)
  {
    if a == [] {
      assert a + b == b;
    } else {
      assert (a + b)[1..] == a[1..] + b;
      BeforeAppend(a[1..], b, t);
    }
  }

  /** Events all strictly before `t` survive the filter unchanged. */
  lemma {:induction false} BeforeKeepsEarlier(s: seq<Event>, t: real)
    requires forall i :: 0 <= i < |s| ==> s[i].time < t
    ensures Before(s, t) == s
  {
    if s != [] {
      BeforeKeepsEarlier(s[1..], t);
    }
  }

  /** A prefix of events all strictly before `t` survives the filter in place. */
  lemma BeforeKeepsPrefix(s: seq<Event>, k: nat, t: real)
    requires k <= |s| && forall i :: 0 <= i < k ==> s[i].time < t
    ensures k <= |Before(s, t)| && Before(s, t)[..k] == s[..k]
  {
    assert s == s[..k] + s[k..];
    BeforeAppend(s[..k], s[k..], t);
    BeforeKeepsEarlier(s[..k], t);
    assert Before(s, t) == s[..k] + Before(s[k..], t);
  }

  /** Events all at or after `t` are all removed. */
  lemma {:induction false} BeforeDropsLater(s: seq<Event>, t: real)
    requires forall i :: 0 <= i < |s| ==> t <= s[i].time
    ensures Before(s, t) == []
  {
    if s != [] {
      BeforeDropsLater(s[1..], t);
    }
  }

  /** When the events before `t` form a prefix (as on a sorted timeline), the
      filter keeps exactly that prefix. */
  lemma BeforeSortedIsPrefix(s: seq<Event>, t: real, k: nat)
    requires k <= |s|
    requires forall i :: 0 <= i < k ==> s[i].time < t
    requires forall i :: k <= i < |s| ==> t <= s[i].time
    ensures Before(s, t) == s[..k]
  {
    assert s == s[..k] + s[k..];
    BeforeAppend(s[..k], s[k..], t);
    BeforeKeepsEarlier(s[..k], t);
    BeforeDropsLater(s[k..], t);
  }

  /** The filter keeps a timeline in time order. */
  lemma {:induction false} BeforeKeepsSorted(s: seq<Event>, t: real)
    requires Sorted(s)
    ensures Sorted(Before(s, t))
  {
    if s != [] {
      var tail := s[1..];
      assert Sorted(tail) by {
        forall i, j | 0 <= i < j < |tail| ensures tail[i].time <= tail[j].time {
          assert tail[i] == s[i + 1] && tail[j] == s[j + 1];
        }
      }
      BeforeKeepsSorted(tail, t);
      var rest := Before(tail, t);
      if s[0].time < t {
        forall i | 0 <= i < |rest| ensures s[0].time <= rest[i].time {
          assert rest[i] in tail;
          var k :| 0 <= k < |tail| && tail[k] == rest[i];
          assert tail[k] == s[k + 1];
        }
        ConsSorted(s[0], rest);
      }
    }
  }

  /** An event no later than every event of a sorted list can go in front of it. */
  lemma ConsSorted(e: Event, s: seq<Event>)
    requires Sorted(s) && forall i :: 0 <= i < |s| ==> e.time <= s[i].time
    ensures Sorted([e] + s)
  {
    var r := [e] + s;
    forall i, j | 0 <= i < j < |r| ensures r[i].time <= r[j].time {
      assert r[j] == s[j - 1];
      if 0 < i {
        assert r[i] == s[i - 1];
      }
    }
  }

  /** The filter keeps at most one event per (time, kind). */
  lemma {:induction false} BeforeKeepsUnique(s: seq<Event>, t: real)
    requires UniqueSlots(s)
    ensures UniqueSlots(Before(s, t))
  {
    if s != [] {
      var tail := s[1..];
      assert UniqueSlots(tail) by {
        forall i, j | 0 <= i < j < |tail| ensures !SameSlot(tail[i], tail[j]) {
          assert tail[i] == s[i + 1] && tail[j] == s[j + 1];
        }
      }
      BeforeKeepsUnique(tail, t);
      var rest := Before(tail, t);
      if s[0].time < t {
        forall i | 0 <= i < |rest| ensures !SameSlot(s[0], rest[i]) {
          assert rest[i] in tail;
          var k :| 0 <= k < |tail| && tail[k] == rest[i];
          assert tail[k] == s[k + 1];
        }
        ConsUnique(s[0], rest);
      }
    }
  }

  /** An event sharing no slot with a list's events can go in front of it. */
  lemma ConsUnique(e: Event, s: seq<Event>)
    requires UniqueSlots(s) && forall i :: 0 <= i < |s| ==> !SameSlot(e, s[i])
    ensures UniqueSlots([e] + s)
  {
    var r := [e] + s;
    forall i, j | 0 <= i < j < |r| ensures !SameSlot(r[i], r[j]) {
      assert r[j] == s[j - 1];
      if 0 < i {
        assert r[i] == s[i - 1];
      }
    }
  }

  lemma {:induction false} BeforeWellFormed(s: seq<Event>, t: real)
    requires AllWellFormed(s)
    ensures AllWellFormed(Before(s, t))
  {
    if s != [] {
      BeforeWellFormed(s[1..], t);
    }
  }
}
