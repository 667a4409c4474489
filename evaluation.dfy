/** What `getValueAtTime` computes, in both timelines: the value one event
    contributes given the value reaching it (lib/index.js:148-186,
    lib/PseudoAudioParam.js:141-171), and the forward scan over the events
    whose time is at or before the query time. Both `getValueAtTime`
    methods are proved to compute `ScanFrom` from their start index. */
module Evaluation {
  import opened Expr
  import opened Events

  /** The time `t0` at which event `i`'s segment is evaluated: the query time,
      clipped to the next event's time and to the event's cancel time. */
  function ClipTime(s: seq<Event>, i: nat, t: real): (r: real)
    requires i < |s|
    ensures r <= t
    ensures i + 1 < |s| ==> r <= s[i + 1].time
    ensures s[i].IsCancelled() ==> r <= s[i].cancelTime.value
    ensures r == t || (i + 1 < |s| && r == s[i + 1].time) || (s[i].IsCancelled() && r == s[i].cancelTime.value)
  {
    var t0 := if i + 1 < |s| then Min(t, s[i + 1].time) else t;
    if s[i].IsCancelled() then Min(t0, s[i].cancelTime.value) else t0
  }

  /** The running value after event `e0`'s own case: a target approach starts
      from the incoming value; every other kind ignores it. */
  function OwnValue(m: MathLib, e0: Event, t0: real, value: real): real
    requires e0.WellFormed()
  {
    match e0
    case SetTarget(v, time, c, _) => TargetValue(m, t0, value, v, time, c)
    case SetValueCurve(curve, time, d, _) => ValueCurveValue(t0, curve, time, d)
    case _ => e0.value
  }

  /** One step of the scan: event `i`'s own case, then, when the next event is
      a ramp, that ramp from event `i` (time and running value) to the next
      event (time and value). */
  function SegmentValue(m: MathLib, s: seq<Event>, i: nat, t: real, value: real): real
    requires i < |s| && AllWellFormed(s)
  {
    var t0 := ClipTime(s, i, t);
    var v := OwnValue(m, s[i], t0, value);
    if i + 1 < |s| then
      match s[i + 1]
      case LinearRamp(v1, t1) => LinearRampValue(t0, v, v1, s[i].time, t1)
      case ExponentialRamp(v1, t1) => ExponentialRampValue(m, t0, v, v1, s[i].time, t1)
      case _ => v
    else v
  }

  /** The scan from index `i` with running value `value`: it stops at the end
      of the list or at the first event later than `t`. */
  function ScanFrom(m: MathLib, s: seq<Event>, i: nat, t: real, value: real): real
    requires AllWellFormed(s)
    decreases |s| - i
  {
    if |s| <= i || t < s[i].time then value
    else ScanFrom(m, s, i + 1, t, SegmentValue(m, s, i, t, value))
  }

  /** Where the scan from `i` leaves the cursor, which starts at `idx`: the
      last visited event that is not a target approach. */
  function RestIndex(s: seq<Event>, i: nat, t: real, idx: nat): (r: nat)
    ensures r == idx || (i <= r < |s| && !s[r].SetTarget? && forall j :: i <= j <= r ==> s[j].time <= t)
    decreases |s| - i
  {
    if |s| <= i || t < s[i].time then idx
    else RestIndex(s, i + 1, t, if s[i].SetTarget? then idx else i)
  }

  /** Every kind but a target approach overwrites the incoming value. */
  lemma SegmentIgnoresIncoming(m: MathLib, s: seq<Event>, i: nat, t: real, u: real, w: real)
    requires i < |s| && AllWellFormed(s) && !s[i].SetTarget?
    ensures SegmentValue(m, s, i, t, u) == SegmentValue(m, s, i, t, w)
  {
  }

  /** Resuming is sound: a scan from `j` that passes every event up to `k`,
      where event `k` is not a target approach, gives the same value as a scan
      from `k` with any incoming value. In particular (j = 0) a cursor resting
      on such an event reproduces the scan from the start. */
  lemma {:induction false} ScanResumes(m: MathLib, s: seq<Event>, j: nat, k: nat, t: real, u: real, v: real)
    requires AllWellFormed(s) && j <= k < |s| && !s[k].SetTarget?
    requires forall i :: j <= i <= k ==> s[i].time <= t
    ensures ScanFrom(m, s, j, t, u) == ScanFrom(m, s, k, t, v)
    decreases k - j
  {
    if j == k {
      SegmentIgnoresIncoming(m, s, k, t, u, v);
    } else {
      ScanResumes(m, s, j + 1, k, t, SegmentValue(m, s, j, t, u), v);
    }
  }

  /** On a sorted timeline, every event up to one at or before `t` is too. */
  lemma SortedPrefixBefore(s: seq<Event>, k: nat, t: real)
    requires Sorted(s) && k < |s| && s[k].time <= t
    ensures forall i :: 0 <= i <= k ==> s[i].time <= t
  {
  }

  /** Query time before the first event (or an empty list): the scan from the
      start returns the incoming value, i.e. the default value. */
  lemma ScanBeforeFirst(m: MathLib, s: seq<Event>, t: real, d: real)
    requires AllWellFormed(s) && (s == [] || t < s[0].time)
    ensures ScanFrom(m, s, 0, t, d) == d
  {
  }

  /** A timeline of `setValueAtTime` events only is a step function: the value
      of the last event at or before `t`. */
  lemma ScanSetValueSteps(m: MathLib, s: seq<Event>, k: nat, t: real, d: real)
    requires AllWellFormed(s) && Sorted(s)
    requires forall i :: 0 <= i < |s| ==> s[i].SetValue?
    requires k < |s| && s[k].time <= t && (k + 1 == |s| || t < s[k + 1].time)
    ensures ScanFrom(m, s, 0, t, d) == s[k].value
  {
    SortedPrefixBefore(s, k, t);
    ScanResumes(m, s, 0, k, t, d, d);
  }

  /** At a ramp's own time (and before the next event) the value is exactly
      the ramp's target value. */
  lemma ScanAtRampEnd(m: MathLib, s: seq<Event>, k: nat, t: real, d: real)
    requires AllWellFormed(s) && Sorted(s)
    requires k < |s| && s[k].IsRamp() && t == s[k].time && (k + 1 == |s| || t < s[k + 1].time)
    ensures ScanFrom(m, s, 0, t, d) == s[k].value
  {
    SortedPrefixBefore(s, k, t);
    ScanResumes(m, s, 0, k, t, d, d);
  }

  /** Strictly inside a ramp that follows a set-value or ramp event, the value
      is that ramp's formula from the previous event (time and value) to the
      ramp event (time and value). */
  lemma ScanInsideRamp(m: MathLib, s: seq<Event>, k: nat, t: real, d: real)
    requires AllWellFormed(s) && Sorted(s)
    requires 0 < k < |s| && s[k].IsRamp() && (s[k - 1].SetValue? || s[k - 1].IsRamp())
    requires s[k - 1].time <= t < s[k].time
    ensures ScanFrom(m, s, 0, t, d) ==
      if s[k].LinearRamp?
      then LinearRampValue(t, s[k - 1].value, s[k].value, s[k - 1].time, s[k].time)
      else ExponentialRampValue(m, t, s[k - 1].value, s[k].value, s[k - 1].time, s[k].time)
  {
    SortedPrefixBefore(s, k - 1, t);
    ScanResumes(m, s, 0, k - 1, t, d, d);
  }
}
