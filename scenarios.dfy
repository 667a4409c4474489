/** Call sequences on the two timeline classes, as a caller would write them,
    with the lists and values that result. */
module Scenarios {
  import opened Expr
  import opened Events
  import opened Evaluation
  import Timeline
  import LegacyTimeline

  /** A query at 10 leaves the cursor on the event at 10; cancelling at
      exactly 10 removes that event but keeps the cursor, so the next query
      at 10 returns the default value 0 instead of the value 5 that the
      remaining event holds. */
  method CursorLoss(m: MathLib) returns (first: real, second: real, fromStart: real)
    ensures first == 1.0
    ensures second == 0.0
    ensures fromStart == 5.0
  {
    var p := new Timeline.PseudoAudioParam(None);
    p.SetValueAtTime(5.0, 0.0);
    p.SetValueAtTime(1.0, 10.0);
    ghost var s := [SetValue(5.0, 0.0), SetValue(1.0, 10.0)];
    assert p.events == s;
    first := p.GetValueAtTime(10.0, m);
    assert first == 1.0 by {
      assert SegmentValue(m, s, 1, 10.0, 5.0) == 1.0;
      assert ScanFrom(m, s, 2, 10.0, 1.0) == 1.0;
      assert ScanFrom(m, s, 1, 10.0, 5.0) == 1.0;
    }
    assert p.eventIndex == 1;
    p.CancelScheduledValues(10.0);
    assert p.events == [SetValue(5.0, 0.0)] by {
      Timeline.CancelAtQueryTimeLosesValue(m);
    }
    second := p.GetValueAtTime(10.0, m);
    fromStart := ScanFrom(m, p.events, 0, 10.0, p.defaultValue);
    assert SegmentValue(m, p.events, 0, 10.0, 0.0) == 5.0;
    assert ScanFrom(m, p.events, 1, 10.0, 5.0) == 5.0;
  }

  /** Ramps scheduled out of order, then a replacement at the last slot:
      the list ends sorted. */
  method ScheduleRamps() returns (p: Timeline.PseudoAudioParam)
    ensures fresh(p) && p.Valid() && p.defaultValue == 0.0
    ensures p.events == [SetValue(0.0, 0.0), LinearRamp(1.0, 10.0), LinearRamp(3.0, 20.0)]
    ensures p.eventIndex == 0 && p.prevGotTime == 0.0
  {
    p := new Timeline.PseudoAudioParam(None);
    p.SetValueAtTime(0.0, 0.0);
    p.LinearRampToValueAtTime(2.0, 20.0);
    p.LinearRampToValueAtTime(1.0, 10.0);
    p.LinearRampToValueAtTime(3.0, 20.0);
  }

  /** The values along those ramps: half-way up the first ramp at 5, and
      half-way up the second one at 15 (the second query resumes from the
      cursor the first one left). */
  method LinearRamps(m: MathLib) returns (atFive: real, atFifteen: real)
    ensures atFive == 0.5
    ensures atFifteen == 2.0
  {
    var p := ScheduleRamps();
    ghost var s := p.events;
    atFive := p.GetValueAtTime(5.0, m);
    assert SegmentValue(m, s, 0, 5.0, 0.0) == 0.5 by {
      assert ClipTime(s, 0, 5.0) == 5.0;
      assert LinearRampValue(5.0, 0.0, 1.0, 0.0, 10.0) == 0.5;
    }
    assert ScanFrom(m, s, 1, 5.0, 0.5) == 0.5;
    assert p.eventIndex == 0;
    atFifteen := p.GetValueAtTime(15.0, m);
    assert SegmentValue(m, s, 0, 15.0, 0.0) == 1.0 by {
      assert ClipTime(s, 0, 15.0) == 10.0;
    }
    assert SegmentValue(m, s, 1, 15.0, 1.0) == 2.0 by {
      assert ClipTime(s, 1, 15.0) == 15.0;
      assert LinearRampValue(15.0, 1.0, 3.0, 10.0, 20.0) == 2.0;
    }
    assert ScanFrom(m, s, 2, 15.0, 2.0) == 2.0;
    assert ScanFrom(m, s, 1, 15.0, 1.0) == 2.0;
  }

  /** Target approaches scheduled out of order, the first one held at 15,
      then another approach at 20. */
  method ScheduleHeldTargets(m: MathLib) returns (p: Timeline.PseudoAudioParam)
    ensures fresh(p) && p.Valid() && p.defaultValue == 0.0
    ensures p.events == [SetValue(0.0, 0.0), SetTarget(1.0, 10.0, 2.0, Some(15.0)), SetTarget(3.0, 20.0, 2.0, None)]
    ensures p.eventIndex == 0 && p.prevGotTime == 0.0
  {
    p := new Timeline.PseudoAudioParam(None);
    p.SetValueAtTime(0.0, 0.0);
    p.SetTargetAtTime(2.0, 20.0, 2.0);
    assert p.events == [SetValue(0.0, 0.0), SetTarget(2.0, 20.0, 2.0, None)];
    p.SetTargetAtTime(1.0, 10.0, 2.0);
    ghost var before := [SetValue(0.0, 0.0), SetTarget(1.0, 10.0, 2.0, None), SetTarget(2.0, 20.0, 2.0, None)];
    assert p.events == before;
    assert Timeline.HeldTimeline(m, before, 15.0) == [SetValue(0.0, 0.0), SetTarget(1.0, 10.0, 2.0, Some(15.0))] by {
      assert Timeline.FirstLater(before, 15.0, 2) == 2;
      assert Timeline.FirstLater(before, 15.0, 0) == 2;
      assert Timeline.HoldIndex(before, 15.0) == Some(1);
    }
    p.CancelAndHoldAtTime(15.0, m);
    assert p.events == [SetValue(0.0, 0.0), SetTarget(1.0, 10.0, 2.0, Some(15.0))];
    p.SetTargetAtTime(3.0, 20.0, 2.0);
  }

  /** The held approach stops at 15: the value at 20 is the value at 15.
      Replayed on a target that supports cancel-and-hold, the hold follows
      the held event's scheduling call. */
  method HeldTargets(m: MathLib) returns (atFifteen: real, atTwenty: real, calls: seq<TargetCall>)
    ensures atFifteen == TargetValue(m, 15.0, 0.0, 1.0, 10.0, 2.0)
    ensures atTwenty == atFifteen
    ensures calls == [
      CallSchedule(SetValueAtTime, [Num(0.0), Num(0.0)]),
      CallSchedule(SetTargetAtTime, [Num(1.0), Num(10.0), Num(2.0)]),
      CallCancelAndHoldAtTime(15.0),
      CallSchedule(SetTargetAtTime, [Num(3.0), Num(20.0), Num(2.0)])]
  {
    var p := ScheduleHeldTargets(m);
    ghost var s := p.events;
    ghost var x := TargetValue(m, 15.0, 0.0, 1.0, 10.0, 2.0);
    atFifteen := p.GetValueAtTime(15.0, m);
    assert SegmentValue(m, s, 0, 15.0, 0.0) == 0.0;
    assert SegmentValue(m, s, 1, 15.0, 0.0) == x by {
      assert ClipTime(s, 1, 15.0) == 15.0;
    }
    assert ScanFrom(m, s, 2, 15.0, x) == x;
    assert ScanFrom(m, s, 1, 15.0, 0.0) == x;
    assert p.eventIndex == 0;
    atTwenty := p.GetValueAtTime(20.0, m);
    assert SegmentValue(m, s, 1, 20.0, 0.0) == x by {
      assert ClipTime(s, 1, 20.0) == 15.0;
    }
    assert SegmentValue(m, s, 2, 20.0, x) == x;
    assert ScanFrom(m, s, 3, 20.0, x) == x;
    assert ScanFrom(m, s, 1, 20.0, 0.0) == x;
    calls := p.ApplyTo(false, true);
    assert s[..2][..1] == [s[0]] && s[..2][1] == s[1] && s[..2] == s[..|s| - 1];
    assert Replay([s[0]], true) == [CallSchedule(SetValueAtTime, [Num(0.0), Num(0.0)])];
    assert Replay(s[..2], true) == Replay([s[0]], true) + ReplayEvent(s[1], true);
  }

  /** A ramp held half-way becomes a ramp to 0.5 ending at 5; a new ramp back
      to 0 at 10 then goes after it. */
  method ScheduleHeldRamp(m: MathLib) returns (p: Timeline.PseudoAudioParam)
    ensures fresh(p) && p.Valid() && p.defaultValue == 0.0
    ensures p.events == [SetValue(0.0, 0.0), LinearRamp(0.5, 5.0), LinearRamp(0.0, 10.0)]
    ensures p.eventIndex == 0 && p.prevGotTime == 0.0
  {
    p := new Timeline.PseudoAudioParam(None);
    p.SetValueAtTime(0.0, 0.0);
    p.LinearRampToValueAtTime(1.0, 10.0);
    assert p.events == [SetValue(0.0, 0.0), LinearRamp(1.0, 10.0)];
    Timeline.HoldMidRamp(m);
    p.CancelAndHoldAtTime(5.0, m);
    assert p.events == [SetValue(0.0, 0.0), LinearRamp(0.5, 5.0)];
    p.LinearRampToValueAtTime(0.0, 10.0);
  }

  /** On the way back down, the midpoint of the new ramp is 0.25. */
  method HeldRamp(m: MathLib) returns (atSevenAndHalf: real)
    ensures atSevenAndHalf == 0.25
  {
    var p := ScheduleHeldRamp(m);
    ghost var s := p.events;
    atSevenAndHalf := p.GetValueAtTime(7.5, m);
    assert SegmentValue(m, s, 0, 7.5, 0.0) == 0.5 by {
      assert ClipTime(s, 0, 7.5) == 5.0;
    }
    assert SegmentValue(m, s, 1, 7.5, 0.5) == 0.25 by {
      assert ClipTime(s, 1, 7.5) == 7.5;
      assert LinearRampValue(7.5, 0.5, 0.0, 5.0, 10.0) == 0.25;
    }
    assert ScanFrom(m, s, 2, 7.5, 0.25) == 0.25;
    assert ScanFrom(m, s, 1, 7.5, 0.5) == 0.25;
  }

  /** Legacy insertion of a value at 10 into values at 0 and 20 goes
      between them. */
  lemma LegacyInsertsBetween()
    ensures LegacyTimeline.LegacyInserted([SetValue(0.0, 0.0), SetValue(2.0, 20.0)], SetValue(1.0, 10.0))
      == [SetValue(0.0, 0.0), SetValue(1.0, 10.0), SetValue(2.0, 20.0)]
  {
    var two := [SetValue(0.0, 0.0), SetValue(2.0, 20.0)];
    assert LegacyTimeline.FirstStop(two, SetValue(1.0, 10.0), 1) == 1;
    LegacyTimeline.LegacyInsertAdds(two, SetValue(1.0, 10.0));
  }

  /** Legacy insertion of a second value at 20 replaces the first one. */
  lemma LegacyReplacesAtTwenty()
    ensures LegacyTimeline.LegacyInserted([SetValue(0.0, 0.0), SetValue(1.0, 10.0), SetValue(2.0, 20.0)], SetValue(3.0, 20.0))
      == [SetValue(0.0, 0.0), SetValue(1.0, 10.0), SetValue(3.0, 20.0)]
  {
    var three := [SetValue(0.0, 0.0), SetValue(1.0, 10.0), SetValue(2.0, 20.0)];
    LegacyTimeline.LegacyInsertReplaces(three, SetValue(3.0, 20.0), 2);
  }

  /** The legacy class: values scheduled out of order, then a replacement
      at 20; the list ends sorted. */
  method ScheduleLegacySteps() returns (p: LegacyTimeline.PseudoAudioParam)
    ensures fresh(p) && p.Valid() && p.defaultValue == 0.0
    ensures p.events == [SetValue(0.0, 0.0), SetValue(1.0, 10.0), SetValue(3.0, 20.0)]
  {
    p := new LegacyTimeline.PseudoAudioParam(None);
    p.SetValueAtTime(0.0, 0.0);
    assert p.events == [SetValue(0.0, 0.0)];
    p.SetValueAtTime(2.0, 20.0);
    assert p.events == [SetValue(0.0, 0.0), SetValue(2.0, 20.0)];
    LegacyInsertsBetween();
    p.SetValueAtTime(1.0, 10.0);
    LegacyReplacesAtTwenty();
    p.SetValueAtTime(3.0, 20.0);
  }

  /** Its values form a step function. */
  method LegacySteps(m: MathLib) returns (atFifteen: real, atTwentyFive: real)
    ensures atFifteen == 1.0
    ensures atTwentyFive == 3.0
  {
    var p := ScheduleLegacySteps();
    ghost var s := p.events;
    atFifteen := p.GetValueAtTime(15.0, m);
    atTwentyFive := p.GetValueAtTime(25.0, m);
    ScanSetValueSteps(m, s, 1, 15.0, 0.0);
    ScanSetValueSteps(m, s, 2, 25.0, 0.0);
  }
}
