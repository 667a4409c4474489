/** The current timeline (lib/index.js): an event list that the scheduling
    and cancelling operations change in place, and a cursor
    (`_eventIndex`, `_prevGotTime`) that lets `getValueAtTime` resume its
    scan where the previous query stopped. */
module Timeline {
  import opened Expr
  import opened Events
  import opened Evaluation

  // ---------------------------------------------------------------------
  // Insertion (lib/index.js:208-234)

  /** Where the backward `for` loop starting at index `i` stops: the first
      index, going down, whose event has the new event's time or a later one;
      -1 when it runs off the front. */
  function BackwardStop(s: seq<Event>, e: Event, i: int): (r: int)
    requires -1 <= i < |s|
    ensures -1 <= r <= i
    ensures 0 <= r ==> s[r].time == e.time || e.time < s[r].time
    ensures forall j :: r < j <= i ==> s[j].time < e.time
    decreases i + 1
  {
    if i < 0 then -1
    else if s[i].time == e.time || e.time < s[i].time then i
    else BackwardStop(s, e, i - 1)
  }

  /** Outside the append branch the backward scan always stops on its first
      step, at the last event. */
  lemma BackwardScanStopsAtLast(s: seq<Event>, e: Event)
    requires !IsAppend(s, e)
    ensures BackwardStop(s, e, |s| - 1) == |s| - 1
  {
  }

  /** The list after `_insertEvent(e)`: append, or splice at the backward
      scan's stop, replacing a same-time same-kind event there or going after
      a same-time event of another kind. Since the scan stops at the last
      event, only the last event is ever compared. */
  function Inserted(s: seq<Event>, e: Event): (r: seq<Event>)
    ensures IsAppend(s, e) ==> r == s + [e]
    ensures !IsAppend(s, e) && SameSlot(s[|s| - 1], e) ==> r == s[..|s| - 1] + [e]
    ensures !IsAppend(s, e) && s[|s| - 1].time == e.time && !SameSlot(s[|s| - 1], e) ==>
      r == s + [e]
    ensures !IsAppend(s, e) && e.time < s[|s| - 1].time ==> r == s[..|s| - 1] + [e, s[|s| - 1]]
  {
    if IsAppend(s, e) then s + [e]
    else
      var i := BackwardStop(s, e, |s| - 1);
      BackwardScanStopsAtLast(s, e);
      var replace := if SameSlot(s[i], e) then 1 else 0;
      var addAfter := if s[i].time == e.time && !SameSlot(s[i], e) then 1 else 0;
      assert s[i..] == [s[i]];
      Splice(s, i + addAfter, replace, e)
  }

  lemma InsertedWellFormed(s: seq<Event>, e: Event)
    requires AllWellFormed(s) && e.WellFormed()
    ensures AllWellFormed(Inserted(s, e))
  {
    var r := Inserted(s, e);
    forall i | 0 <= i < |r| ensures r[i].WellFormed() {
      assert r[i] in s || r[i] == e;
    }
  }

  /** On a sorted list, insertion keeps the list sorted exactly when the new
      event is not earlier than the second-to-last event: every earlier-timed
      event lands just before the last one. */
  lemma InsertedSortedIff(s: seq<Event>, e: Event)
    requires Sorted(s)
    ensures Sorted(Inserted(s, e)) <==> (|s| < 2 || s[|s| - 2].time <= e.time)
  {
    var r := Inserted(s, e);
    var n := |s|;
    if IsAppend(s, e) || s[n - 1].time == e.time {
      assert Sorted(r) by {
        forall i, j | 0 <= i < j < |r| ensures r[i].time <= r[j].time {
          if j >= n - 1 && n > 0 {
            assert s[i].time <= s[n - 1].time || i >= n - 1;
          }
        }
      }
      if n >= 2 {
        assert s[n - 2].time <= s[n - 1].time;
      }
    } else {
      if |s| >= 2 && e.time < s[n - 2].time {
        assert r[n - 2] == s[n - 2] && r[n - 1] == e;
      } else {
        assert Sorted(r) by {
          forall i, j | 0 <= i < j < |r| ensures r[i].time <= r[j].time {
            if j == n - 1 {
              assert r[i] == s[i];
              assert s[i].time <= s[n - 2].time || i == n - 2;
            } else if j == n {
              assert i == n - 1 || r[i] == s[i];
            } else {
              assert r[i] == s[i] && r[j] == s[j];
            }
          }
        }
      }
    }
  }

  /** Replacement compares only the last event: a same-slot event further
      back is not found, and the list ends up with two events in one slot. */
  lemma InsertedDuplicatesSlot()
    ensures var s := [SetValue(0.0, 5.0), LinearRamp(1.0, 5.0)];
      var r := Inserted(s, SetValue(2.0, 5.0));
      r == s + [SetValue(2.0, 5.0)] && !UniqueSlots(r)
  {
    var s := [SetValue(0.0, 5.0), LinearRamp(1.0, 5.0)];
    var r := Inserted(s, SetValue(2.0, 5.0));
    assert !SameSlot(r[0], r[2]) ==> false;
  }

  /** An event earlier than the last two lands between them, unsorted. */
  lemma InsertedUnsorted()
    ensures Inserted([SetValue(0.0, 0.0), SetValue(1.0, 10.0), SetValue(2.0, 20.0)], SetValue(3.0, 5.0))
      == [SetValue(0.0, 0.0), SetValue(1.0, 10.0), SetValue(3.0, 5.0), SetValue(2.0, 20.0)]
  {
  }

  /** The backward `for` loop of lib/index.js:218-230, with the flags it sets. */
  method ScanBackward(s: seq<Event>, e: Event) returns (i: int, replace: nat, addAfter: nat)
    ensures i == BackwardStop(s, e, |s| - 1)
    ensures replace == if 0 <= i && SameSlot(s[i], e) then 1 else 0
    ensures addAfter == if 0 <= i && s[i].time == e.time && !SameSlot(s[i], e) then 1 else 0
  {
    replace, addAfter := 0, 0;
    i := |s| - 1;
    while i >= 0
      invariant -1 <= i < |s|
      invariant BackwardStop(s, e, |s| - 1) == BackwardStop(s, e, i)
      decreases i + 1
    {
      if s[i].time == e.time {
        if s[i].Kind() == e.Kind() {
          replace := 1;
          break;
        }
        addAfter := 1;
        break;
      }
      if e.time < s[i].time {
        break;
      }
      i := i - 1;
    }
  }

  // ---------------------------------------------------------------------
  // Cancel and hold (lib/index.js:80-134)

  /** Index of the first event from `i` on that is later than `t`, or the length. */
  function FirstLater(s: seq<Event>, t: real, i: nat): (k: nat)
    requires i <= |s|
    ensures i <= k <= |s|
    ensures forall j :: i <= j < k ==> s[j].time <= t
    ensures k < |s| ==> t < s[k].time
    decreases |s| - i
  {
    if i == |s| || t < s[i].time then i else FirstLater(s, t, i + 1)
  }

  /** The index of the event that is held, or None when the call changes nothing. */
  function HoldIndex(s: seq<Event>, t: real): Option<nat>
  {
    var k := FirstLater(s, t, 0);
    if 0 < k && s[k - 1].IsOpenEnded() then Some(k - 1)
    else if k == |s| then None
    else Some(k)
  }

  /** The held event `e1`, given its predecessor `e0`: a ramp after a
      valued event is frozen at its value at `t` and moved to `t`; a target
      approach or curve gets cancel time `t`; anything else is unchanged. */
  function Held(m: MathLib, e1: Event, e0: Option<Event>, t: real): Event
  {
    match e1
    case LinearRamp(v1, t1) =>
      if e0.Some? && e0.value.HasValue()
      then LinearRamp(LinearRampValue(t, e0.value.value, v1, e0.value.time, t1), t)
      else e1
    case ExponentialRamp(v1, t1) =>
      if e0.Some? && e0.value.HasValue()
      then ExponentialRamp(ExponentialRampValue(m, t, e0.value.value, v1, e0.value.time, t1), t)
      else e1
    case SetTarget(v, time, c, _) => SetTarget(v, time, c, Some(t))
    case SetValueCurve(curve, time, d, _) => SetValueCurve(curve, time, d, Some(t))
    case SetValue(_, _) => e1
  }

  /** The list after `cancelAndHoldAtTime(t)`: the held event rewritten, and
      everything after it dropped. */
  function HeldTimeline(m: MathLib, s: seq<Event>, t: real): seq<Event>
  {
    match HoldIndex(s, t)
    case None => s
    case Some(c) => s[..c] + [Held(m, s[c], if 0 < c then Some(s[c - 1]) else None, t)]
  }

  /** The call does nothing exactly when no event is later than `t` and the
      last event (if any) is not open-ended. */
  lemma HoldNoOpIff(s: seq<Event>, t: real)
    ensures HoldIndex(s, t).None? <==>
      (forall i :: 0 <= i < |s| ==> s[i].time <= t) && (s == [] || !s[|s| - 1].IsOpenEnded())
  {
    var k := FirstLater(s, t, 0);
    if k < |s| {
      assert !(s[k].time <= t);
    }
  }

  /** When the event just before the first later one is open-ended, that
      event is kept with cancel time `t` and is the new last event. */
  lemma HoldFreezesOpenEnded(m: MathLib, s: seq<Event>, t: real)
    requires var k := FirstLater(s, t, 0); 0 < k && s[k - 1].IsOpenEnded()
    ensures var k := FirstLater(s, t, 0); var r := HeldTimeline(m, s, t);
      && |r| == k
      && r[..k - 1] == s[..k - 1]
      && r[k - 1].Kind() == s[k - 1].Kind()
      && r[k - 1].Uncancelled() == s[k - 1].Uncancelled()
      && r[k - 1].cancelTime == Some(t)
      && forall i :: 0 <= i < |r| ==> r[i].time <= t
  {
  }

  /** Otherwise the first later event is kept and everything after it is
      dropped; when it is a ramp following a valued event, it becomes a ramp
      to the value the ramp has at `t`, ending at `t`, so that no kept event
      is later than `t`; a target approach or curve gets cancel time `t`;
      any other event is kept unchanged. */
  lemma HoldCutsAfterFirstLater(m: MathLib, s: seq<Event>, t: real)
    requires var k := FirstLater(s, t, 0); k < |s| && !(0 < k && s[k - 1].IsOpenEnded())
    ensures var k := FirstLater(s, t, 0); var r := HeldTimeline(m, s, t);
      && |r| == k + 1
      && r[..k] == s[..k]
      && r[k].Kind() == s[k].Kind()
      && (s[k].IsRamp() && 0 < k && s[k - 1].HasValue() ==>
            && r[k].time == t
            && r[k].value == (if s[k].LinearRamp?
                 then LinearRampValue(t, s[k - 1].value, s[k].value, s[k - 1].time, s[k].time)
                 else ExponentialRampValue(m, t, s[k - 1].value, s[k].value, s[k - 1].time, s[k].time))
            && forall i :: 0 <= i < |r| ==> r[i].time <= t)
      && (!(s[k].IsRamp() && 0 < k && s[k - 1].HasValue()) ==> r[k].time == s[k].time && t < r[k].time)
      && (!s[k].IsOpenEnded() && !(s[k].IsRamp() && 0 < k && s[k - 1].HasValue()) ==> r[k] == s[k])
      && (s[k].IsOpenEnded() ==> r[k].Uncancelled() == s[k].Uncancelled() && r[k].cancelTime == Some(t))
  {
  }

  /** Every event but the last one of the result is at or before `t`. */
  lemma HoldBoundsAllButLast(m: MathLib, s: seq<Event>, t: real)
    ensures var r := HeldTimeline(m, s, t);
      forall i :: 0 <= i < |r| - 1 ==> r[i].time <= t
  {
    var k := FirstLater(s, t, 0);
    if HoldIndex(s, t).None? {
      assert forall i :: 0 <= i < |s| ==> s[i].time <= t;
    }
  }

  /** A later `setValueAtTime` survives a hold unchanged: the result has an
      event after the hold time. */
  lemma HoldKeepsLaterSetValue(m: MathLib)
    ensures HeldTimeline(m, [SetValue(0.0, 0.0), SetValue(1.0, 10.0)], 5.0)
      == [SetValue(0.0, 0.0), SetValue(1.0, 10.0)]
  {
    assert FirstLater([SetValue(0.0, 0.0), SetValue(1.0, 10.0)], 5.0, 0) == 1;
  }

  /** Holding half-way through a linear ramp from 0 to 1 over [0, 10]
      leaves a ramp to 0.5 that ends at 5. */
  lemma HoldMidRamp(m: MathLib)
    ensures HeldTimeline(m, [SetValue(0.0, 0.0), LinearRamp(1.0, 10.0)], 5.0)
      == [SetValue(0.0, 0.0), LinearRamp(0.5, 5.0)]
  {
    assert FirstLater([SetValue(0.0, 0.0), LinearRamp(1.0, 10.0)], 5.0, 0) == 1;
    assert LinearRampValue(5.0, 0.0, 1.0, 0.0, 10.0) == 0.5;
  }

  lemma HeldWellFormed(m: MathLib, s: seq<Event>, t: real)
    requires AllWellFormed(s)
    ensures AllWellFormed(HeldTimeline(m, s, t))
  {
  }

  /** The forward loop of lib/index.js:86-90: the index of the first event
      later than `t`, or the length. */
  method ScanForLater(s: seq<Event>, t: real) returns (i: nat)
    ensures i == FirstLater(s, t, 0)
  {
    i := 0;
    while i < |s|
      invariant i <= |s|
      invariant FirstLater(s, t, i) == FirstLater(s, t, 0)
    {
      if t < s[i].time {
        break;
      }
      i := i + 1;
    }
  }

  // ---------------------------------------------------------------------
  // The cursor (lib/index.js:12-13,73-76,128-131,139-145,189-190,231)

  /** The cursor can be trusted: it is 0, or it rests in range on an event
      that is not a target approach, and that event and all before it are at
      or before the last query time. */
  predicate SoundCursor(s: seq<Event>, idx: nat, prevGot: real)
  {
    idx == 0 || (idx < |s| && !s[idx].SetTarget? && forall j :: 0 <= j <= idx ==> s[j].time <= prevGot)
  }

  /** Where `getValueAtTime(t)` starts its scan. */
  function StartIndex(idx: nat, prevGot: real, t: real): nat
  {
    if t < prevGot then 0 else idx
  }

  /** With a sound cursor, the resumed scan equals a scan from the start. */
  lemma SoundCursorScan(m: MathLib, s: seq<Event>, idx: nat, prevGot: real, t: real, d: real)
    requires AllWellFormed(s) && SoundCursor(s, idx, prevGot)
    ensures ScanFrom(m, s, StartIndex(idx, prevGot, t), t, d) == ScanFrom(m, s, 0, t, d)
  {
    if StartIndex(idx, prevGot, t) != 0 {
      ScanResumes(m, s, 0, idx, t, d, d);
    }
  }

  /** A query leaves a sound cursor behind (for the new query time). */
  lemma QueryKeepsCursorSound(s: seq<Event>, idx: nat, prevGot: real, t: real)
    requires SoundCursor(s, idx, prevGot)
    ensures var start := StartIndex(idx, prevGot, t);
      SoundCursor(s, RestIndex(s, start, t, start), t)
  {
  }

  /** Insertion keeps the cursor sound: an append leaves it where it is, any
      other insertion resets its index. */
  lemma InsertKeepsCursorSound(s: seq<Event>, e: Event, idx: nat, prevGot: real)
    requires SoundCursor(s, idx, prevGot)
    ensures SoundCursor(Inserted(s, e), if IsAppend(s, e) then idx else 0, prevGot)
  {
  }

  /** `cancelScheduledValues(t)` keeps the cursor sound unless `t` equals the
      last query time: for a later `t` every event up to the cursor survives
      in place, and for an earlier `t` the cursor is reset. */
  lemma CancelKeepsCursorSound(s: seq<Event>, idx: nat, prevGot: real, t: real)
    requires SoundCursor(s, idx, prevGot) && t != prevGot
    ensures SoundCursor(Before(s, t), if t < prevGot then 0 else idx, if t < prevGot then 0.0 else prevGot)
  {
    if prevGot < t && idx != 0 {
      BeforeKeepsPrefix(s, idx + 1, t);
      PrefixKeepsCursorSound(s, Before(s, t), idx, prevGot);
    }
  }

  /** A cursor stays sound on a list that keeps every event up to it. */
  lemma PrefixKeepsCursorSound(s: seq<Event>, r: seq<Event>, idx: nat, prevGot: real)
    requires SoundCursor(s, idx, prevGot) && idx < |s| && idx < |r| && r[..idx + 1] == s[..idx + 1]
    ensures SoundCursor(r, idx, prevGot)
  {
    if idx != 0 {
      forall j | 0 <= j <= idx ensures r[j] == s[j] {
        assert r[j] == r[..idx + 1][j];
      }
    }
  }

  /** The strict `<` of lib/index.js:73 lets a cancel at exactly the last
      query time remove the event under the cursor without resetting it; the
      next query at that time then scans from past the end and returns the
      default value, not the value of the event that survived. */
  lemma CancelAtQueryTimeLosesValue(m: MathLib)
    ensures var s := [SetValue(5.0, 0.0), SetValue(1.0, 10.0)];
      && SoundCursor(s, 1, 10.0)
      && Before(s, 10.0) == [SetValue(5.0, 0.0)]
      && !SoundCursor(Before(s, 10.0), 1, 10.0)
      && ScanFrom(m, Before(s, 10.0), StartIndex(1, 10.0, 10.0), 10.0, 0.0) == 0.0
      && ScanFrom(m, Before(s, 10.0), 0, 10.0, 0.0) == 5.0
  {
    var s := [SetValue(5.0, 0.0), SetValue(1.0, 10.0)];
    assert Before(s, 10.0) == [SetValue(5.0, 0.0)] by {
      assert s[1..] == [SetValue(1.0, 10.0)];
      assert s[1..][1..] == [];
    }
  }

  /** `cancelAndHoldAtTime(t)` at or after the last query time keeps the
      cursor sound: every event up to the cursor is at or before `t`, so the
      cut comes after it and only a curve under the cursor gets rewritten. */
  lemma HoldKeepsCursorSound(m: MathLib, s: seq<Event>, idx: nat, prevGot: real, t: real)
    requires SoundCursor(s, idx, prevGot) && prevGot <= t
    ensures SoundCursor(HeldTimeline(m, s, t), idx, prevGot)
  {
    var k := FirstLater(s, t, 0);
    if idx != 0 && HoldIndex(s, t).Some? {
      assert idx < k;
      var r := HeldTimeline(m, s, t);
      assert forall j :: 0 <= j < idx ==> r[j] == s[j];
      assert r[idx].Kind() == s[idx].Kind() && r[idx].time == s[idx].time;
    }
  }

  /** One pass of the `for` loop of `getValueAtTime` over event `i`, which
      is at or before the query time: the event's own case at the time
      clipped to the next event and to its cancel time, then the ramp to the
      next event when there is one. The cursor moves to `i` unless the event
      is a target approach. */
  method Step(m: MathLib, s: seq<Event>, i: nat, t: real, value: real, idx: nat) returns (r: real, rest: nat)
    requires AllWellFormed(s) && i < |s|
    ensures r == SegmentValue(m, s, i, t, value)
    ensures rest == if s[i].SetTarget? then idx else i
  {
    var n := |s|;
    var e0 := s[i];
    var t0 := if i + 1 < n then Min(t, s[i + 1].time) else t;
    rest := idx;
    match e0 {
      case SetValue(v, _) =>
        r := v;
        rest := i;
      case LinearRamp(v, _) =>
        r := v;
        rest := i;
      case ExponentialRamp(v, _) =>
        r := v;
        rest := i;
      case SetTarget(v, time, c, cancelTime) =>
        if cancelTime.Some? {
          t0 := Min(t0, cancelTime.value);
        }
        r := TargetValue(m, t0, value, v, time, c);
      case SetValueCurve(curve, time, d, cancelTime) =>
        if cancelTime.Some? {
          t0 := Min(t0, cancelTime.value);
        }
        r := ValueCurveValue(t0, curve, time, d);
        rest := i;
    }
    if i + 1 < n {
      match s[i + 1] {
        case LinearRamp(v1, t1) =>
          r := LinearRampValue(t0, r, v1, e0.time, t1);
        case ExponentialRamp(v1, t1) =>
          r := ExponentialRampValue(m, t0, r, v1, e0.time, t1);
        case _ =>
      }
    }
  }

  // ---------------------------------------------------------------------
  // The timeline object

  class PseudoAudioParam {
    const defaultValue: real
    var eventIndex: nat
    var prevGotTime: real
    var events: seq<Event>

    ghost predicate Valid()
      reads this
    {
      AllWellFormed(events)
    }

    ghost predicate HasSoundCursor()
      reads this
    {
      SoundCursor(events, eventIndex, prevGotTime)
    }

    /** `defaultValue || 0`: a missing default is 0. */
    constructor (defaultValue: Option<real>)
      ensures Valid() && HasSoundCursor()
      ensures this.defaultValue == if defaultValue.Some? then defaultValue.value else 0.0
      ensures events == [] && eventIndex == 0 && prevGotTime == 0.0
    {
      this.defaultValue := if defaultValue.Some? then defaultValue.value else 0.0;
      eventIndex := 0;
      prevGotTime := 0.0;
      events := [];
    }

    /** `_insertEvent`. */
    method InsertEvent(e: Event)
      requires Valid() && e.WellFormed()
      modifies this
      ensures Valid()
      ensures events == Inserted(old(events), e)
      ensures eventIndex == if IsAppend(old(events), e) then old(eventIndex) else 0
      ensures prevGotTime == old(prevGotTime)
      ensures old(HasSoundCursor()) ==> HasSoundCursor()
    {
      var s := events;
      ghost var sound := HasSoundCursor();
      if sound {
        InsertKeepsCursorSound(s, e, eventIndex, prevGotTime);
      }
      InsertedWellFormed(s, e);
      var time := e.time;
      if |s| == 0 || s[|s| - 1].time < time {
        events := s + [e];
      } else {
        var i, replace, addAfter := ScanBackward(s, e);
        BackwardScanStopsAtLast(s, e);
        assert i == |s| - 1;
        eventIndex := 0;
        events := Splice(s, i + addAfter, replace, e);
      }
    }

    method SetValueAtTime(value: real, time: real)
      requires Valid()
      modifies this
      ensures Valid() && events == Inserted(old(events), SetValue(value, time))
      ensures eventIndex == (if IsAppend(old(events), SetValue(value, time)) then old(eventIndex) else 0)
      ensures prevGotTime == old(prevGotTime)
      ensures old(HasSoundCursor()) ==> HasSoundCursor()
    {
      InsertEvent(SetValue(value, time));
    }

    method LinearRampToValueAtTime(value: real, time: real)
      requires Valid()
      modifies this
      ensures Valid() && events == Inserted(old(events), LinearRamp(value, time))
      ensures eventIndex == (if IsAppend(old(events), LinearRamp(value, time)) then old(eventIndex) else 0)
      ensures prevGotTime == old(prevGotTime)
      ensures old(HasSoundCursor()) ==> HasSoundCursor()
    {
      InsertEvent(LinearRamp(value, time));
    }

    method ExponentialRampToValueAtTime(value: real, time: real)
      requires Valid()
      modifies this
      ensures Valid() && events == Inserted(old(events), ExponentialRamp(value, time))
      ensures eventIndex == (if IsAppend(old(events), ExponentialRamp(value, time)) then old(eventIndex) else 0)
      ensures prevGotTime == old(prevGotTime)
      ensures old(HasSoundCursor()) ==> HasSoundCursor()
    {
      InsertEvent(ExponentialRamp(value, time));
    }

    method SetTargetAtTime(value: real, time: real, timeConstant: real)
      requires Valid()
      modifies this
      ensures Valid() && events == Inserted(old(events), SetTarget(value, time, timeConstant, None))
      ensures eventIndex == (if IsAppend(old(events), SetTarget(value, time, timeConstant, None)) then old(eventIndex) else 0)
      ensures prevGotTime == old(prevGotTime)
      ensures old(HasSoundCursor()) ==> HasSoundCursor()
    {
      InsertEvent(SetTarget(value, time, timeConstant, None));
    }

    method SetValueCurveAtTime(curve: seq<real>, time: real, duration: real)
      requires Valid() && (duration != 0.0 || |curve| <= 1)
      modifies this
      ensures Valid() && events == Inserted(old(events), SetValueCurve(curve, time, duration, None))
      ensures eventIndex == (if IsAppend(old(events), SetValueCurve(curve, time, duration, None)) then old(eventIndex) else 0)
      ensures prevGotTime == old(prevGotTime)
      ensures old(HasSoundCursor()) ==> HasSoundCursor()
    {
      InsertEvent(SetValueCurve(curve, time, duration, None));
    }

    /** `cancelScheduledValues(t)`: keep the events before `t`; reset the
        cursor only when `t` is before the last query time. */
    method CancelScheduledValues(t: real)
      requires Valid()
      modifies this
      ensures Valid()
      ensures events == Before(old(events), t)
      ensures if t < old(prevGotTime) then eventIndex == 0 && prevGotTime == 0.0
              else eventIndex == old(eventIndex) && prevGotTime == old(prevGotTime)
      ensures old(HasSoundCursor()) && t != old(prevGotTime) ==> HasSoundCursor()
    {
      BeforeWellFormed(events, t);
      if t != prevGotTime && HasSoundCursor() {
        CancelKeepsCursorSound(events, eventIndex, prevGotTime, t);
      }
      events := Before(events, t);
      if t < prevGotTime {
        eventIndex := 0;
        prevGotTime := 0.0;
      }
    }

    /** `cancelAndHoldAtTime(t)`. */
    method CancelAndHoldAtTime(t: real, m: MathLib)
      requires Valid()
      modifies this
      ensures Valid()
      ensures events == HeldTimeline(m, old(events), t)
      ensures if HoldIndex(old(events), t).Some? && t < old(prevGotTime)
              then eventIndex == 0 && prevGotTime == 0.0
              else eventIndex == old(eventIndex) && prevGotTime == old(prevGotTime)
      ensures old(HasSoundCursor()) ==> HasSoundCursor()
    {
      var s := events;
      HeldWellFormed(m, s, t);
      if prevGotTime <= t && HasSoundCursor() {
        HoldKeepsCursorSound(m, s, eventIndex, prevGotTime, t);
      }
      var n := |s|;
      var cancelIndex := ScanForLater(s, t);
      if 0 < cancelIndex && s[cancelIndex - 1].IsOpenEnded() {
        cancelIndex := cancelIndex - 1;
      } else if cancelIndex == n {
        return;
      }
      assert HoldIndex(s, t) == Some(cancelIndex);
      var e0 := if 0 < cancelIndex then Some(s[cancelIndex - 1]) else None;
      var held := Held(m, s[cancelIndex], e0, t);
      events := s[cancelIndex := held];
      events := events[..cancelIndex + 1];
      assert events == s[..cancelIndex] + [held] == HeldTimeline(m, s, t);
      if t < prevGotTime {
        eventIndex := 0;
        prevGotTime := 0.0;
      }
    }

    /** `getValueAtTime(t)`: the scan from the cursor (or from the start when
        `t` is before the last query time); it then moves the cursor to the
        last event it passed that is not a target approach. */
    method GetValueAtTime(t: real, m: MathLib) returns (value: real)
      requires Valid()
      modifies this
      ensures Valid() && events == old(events)
      ensures value == ScanFrom(m, events, StartIndex(old(eventIndex), old(prevGotTime), t), t, defaultValue)
      ensures var start := StartIndex(old(eventIndex), old(prevGotTime), t);
        eventIndex == RestIndex(events, start, t, start) && prevGotTime == t
      ensures old(HasSoundCursor()) ==> value == ScanFrom(m, events, 0, t, defaultValue) && HasSoundCursor()
    {
      value := defaultValue;
      var eventIndex: nat := this.eventIndex;
      if t < prevGotTime {
        eventIndex := 0;
      }
      ghost var start := eventIndex;
      if HasSoundCursor() {
        SoundCursorScan(m, events, this.eventIndex, prevGotTime, t, defaultValue);
        QueryKeepsCursorSound(events, this.eventIndex, prevGotTime, t);
      }
      var s := events;
      var n := |s|;
      var i: nat := eventIndex;
      while i < n
        invariant start <= i
        invariant ScanFrom(m, s, start, t, defaultValue) == ScanFrom(m, s, i, t, value)
        invariant RestIndex(s, start, t, start) == RestIndex(s, i, t, eventIndex)
        modifies {}
        decreases n - i
      {
        if t < s[i].time {
          break;
        }
        value, eventIndex := Step(m, s, i, t, value, eventIndex);
        i := i + 1;
      }
      this.prevGotTime := t;
      this.eventIndex := eventIndex;
    }

    /** `applyTo(target, reset)`: the calls issued on the target, in order.
        `canHold` says whether the target has `cancelAndHoldAtTime`. */
    method ApplyTo(reset: bool, canHold: bool) returns (calls: seq<TargetCall>)
      ensures calls == (if reset then [CallCancelScheduledValues(0.0)] else []) + Replay(events, canHold)
    {
      calls := if reset then [CallCancelScheduledValues(0.0)] else [];
      var s := events;
      var replayed := [];
      var i := 0;
      while i < |s|
        invariant 0 <= i <= |s|
        invariant replayed == Replay(s[..i], canHold)
      {
        var e := s[i];
        replayed := replayed + [CallSchedule(e.Kind(), Args(e))];
        if e.IsCancelled() && canHold {
          replayed := replayed + [CallCancelAndHoldAtTime(e.cancelTime.value)];
        }
        ReplayStep(s, i, canHold);
        i := i + 1;
      }
      assert s[..i] == s;
      calls := calls + replayed;
    }
  }
}
