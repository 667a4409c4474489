# pseudo-audio-param in Dafny

A model of the automation timeline of `pseudo-audio-param`, a JavaScript
emulation of the Web Audio `AudioParam` (section 1.6, "The AudioParam
Interface", of the W3C Web Audio API). A timeline is a list of scheduled
events:
- `setValueAtTime`
- `linearRampToValueAtTime`
- `exponentialRampToValueAtTime`
- `setTargetAtTime`
- `setValueCurveAtTime`

It can be cancelled from a time on, held at a time, queried for its value
at any time, and replayed onto a real `AudioParam`.

The model has six modules, one per file:

- `Expr` (`expr.dfy`) holds the four segment formulas of `lib/expr.js` as
  pure functions over `real`. `Math.exp` and `Math.pow` are a `MathLib`
  parameter; a lemma uses facts about them only through its requires
  (`ExpDecays`, `PowPositive`).
- `Events` (`events.dfy`) holds the event datatype shared by both classes,
  its `args`, the call trace that `applyTo` emits, and the
  `cancelScheduledValues` filter.
- `Evaluation` (`evaluation.dfy`) holds `ScanFrom`, the reference
  definition of what both `getValueAtTime` loops compute. A scan from
  index `i` walks forward, carrying the running value through each
  event's own formula and any following ramp. `ScanFrom` also comes with
  the lemmas that make resuming a scan from a cursor sound.
- `Timeline` (`timeline.dfy`) models the current class, `lib/index.js`. It
  is a `class` with `events: seq<Event>` and the cursor fields
  `eventIndex` and `prevGotTime`. Each method is proved against a
  specification function of the old state:
  - `Inserted` for insertion.
  - `Before` for `cancelScheduledValues`.
  - `HeldTimeline` for `cancelAndHoldAtTime`.
  - `ScanFrom` and `RestIndex` for `getValueAtTime`.
  - `Replay` for `applyTo`.

  The model follows the code as written, including behaviour a reader
  might not expect:
  - The backward insertion loop always stops at the last event.
  - A cancel-and-hold keeps the first later event.
  - A cancel at exactly the last query time leaves a stale cursor.
- `LegacyTimeline` (`legacy_timeline.dfy`) models the older class,
  `lib/PseudoAudioParam.js`. It has the recursive binary search, the
  forward-scan insertion, which keeps the list sorted and free of
  duplicate slots, and a `getValueAtTime` that starts one event before the
  searched index. Lemmas compare its insertion and its query with the
  current class.
- `Scenarios` (`scenarios.dfy`) drives both classes through the call
  sequences of the repository's tests and through the stale-cursor
  sequence, and states the resulting lists, values and call traces.

## Model

| member | source | states |
|---|---|---|
| Expr.Trunc | lib/expr.js:57 | `ix\|0` truncates toward zero: the result is within one of `x`, on the side of zero |
| Expr.LinearRampValue | lib/expr.js:3-16 | `v0` at or before `t0`, `v1` from `t1` on, and always between `v0` and `v1` |
| Expr.LinearRampOnLine | lib/expr.js:13-15 | strictly inside the ramp, the point lies on the straight line through (t0, v0) and (t1, v1) |
| Expr.LinearRampMonotone | lib/expr.js:3-16 | a rising ramp is monotone in `t` |
| Expr.ExponentialRampValue | lib/expr.js:18-38 | `v0` before `t0`, `v1` from `t1`, `v0` when `v0 == v1`, 0 inside when the endpoints do not share a strict sign, else `v0 * pow(v1/v0, a)` with `0 < a < 1` |
| Expr.ExponentialRampKeepsSign | lib/expr.js:31-35 | with a positive `pow`, a ramp between same-sign endpoints keeps their sign everywhere |
| Expr.TargetValue | lib/expr.js:40-45 | `v0` at or before `t0`; constant when origin equals target; after `t0`, `v1 + (v0 - v1) * exp((t0 - t) / timeConstant)` for a nonzero time constant and a step to `v1` for a zero one (where `exp(-Infinity)` is 0) |
| Expr.TargetApproaches | lib/expr.js:40-45 | with `exp` of a negative number in (0, 1), after `t0` the value lies strictly between origin and target |
| Expr.TargetMonotone | lib/expr.js:40-45 | with a monotone `exp` and a positive time constant, the approach moves monotonically toward the target: never falling toward a higher one, never rising toward a lower one |
| Expr.CurveIndex | lib/expr.js:55-56 | the fractional index is 0 at `t0` and for a one-sample curve; for a positive duration, at least `len-1` from `t0 + duration` and in [0, len-1) inside the curve |
| Expr.ValueCurveValue | lib/expr.js:47-69 | 0 for an empty curve; the only sample of a one-sample curve, for any duration; `curve[0]` at `t0`; for a positive duration, the last sample from the end on and, inside, a value between the two samples around the truncated index |
| Expr.ValueCurveIsPiecewiseLinear | lib/expr.js:55-68 | on the `k`-th of the `len-1` equal steps of the duration, the curve is exactly the linear ramp from sample `k` to sample `k+1` over that step |
| Expr.CurveIndexInStep | lib/expr.js:55-57 | on the `k`-th step the fractional index is in [k, k+1), so `ix\|0` is `k` |
| Expr.CurveInStep | lib/expr.js:64-68 | on the `k`-th step the value is `curve[k] + (ix - k) * (curve[k+1] - curve[k])`, the source's `y0 + (ix % 1) * (y1 - y0)` |
| Events.IsAppend | lib/index.js:215 | the append branch of both insertions: an empty list, or a time after the last event's |
| Events.Splice | lib/index.js:232 | `events.splice(at, deleteCount, e)`: the prefix before `at` is kept, `e` is at `at`, and the events after the deleted ones follow |
| Events.Args | lib/index.js:17-67 | the `args` array each scheduling method stores with its event |
| Events.ScheduledEvent | lib/index.js:17-67 | the event that a scheduling method builds from its name and arguments, none for arguments of the wrong shape |
| Events.ScheduleCall | lib/index.js:203 | the call `audioParam[event.type].apply(audioParam, event.args)` |
| Events.ReplayEvent | lib/index.js:203-205 | an event's scheduling call, followed by `cancelAndHoldAtTime(cancelTime)` when it has a cancel time and the target can hold |
| Events.Replay | lib/index.js:202-206 | the calls of `forEach` over the list, event by event in list order |
| Events.ArgsRoundTrip | lib/index.js:17-67 | replaying an event's kind and `args` schedules the same event, less its cancel time |
| Events.ReplayAppend | lib/index.js:199-204 | the replay of a concatenation is the concatenation of the replays (list order) |
| Events.ReplayPosition | lib/index.js:199-204 | each event's scheduling call sits right after the previous events' calls and is followed by `cancelAndHoldAtTime(cancelTime)` when it has one and the target supports it |
| Events.ReplayLength | lib/index.js:195-206 | a replay has one call per event plus one per cancelled event on a capable target |
| Events.ReplayWithoutHold | lib/PseudoAudioParam.js:181-183 | without the capability, the replay is exactly the scheduling calls in list order |
| Events.Before | lib/index.js:69-72 | the filter keeps exactly the events earlier than `t`, never adds any |
| Events.BeforeAppend | lib/index.js:70-72 | the filter keeps the original order |
| Events.BeforeKeepsEarlier | lib/index.js:70-72 | events all earlier than `t` survive unchanged |
| Events.BeforeDropsLater | lib/index.js:70-72 | events all at or after `t` are all removed |
| Events.BeforeSortedIsPrefix | lib/index.js:70-72 | when the earlier events form a prefix, the result is that prefix |
| Events.BeforeWellFormed | lib/index.js:70-72 | the filter keeps the timeline well formed |
| Events.BeforeKeepsSorted | lib/PseudoAudioParam.js:116-121 | the filter keeps a sorted timeline sorted |
| Events.BeforeKeepsUnique | lib/PseudoAudioParam.js:116-121 | the filter keeps at most one event per (time, kind) |
| Evaluation.ClipTime | lib/index.js:150-174 | the evaluation time is the least of the query time, the next event's time and the event's own cancel time |
| Evaluation.OwnValue | lib/index.js:156-176 | event `e0`'s own case of the switch: its value, a target approach from the running value, or the curve |
| Evaluation.SegmentValue | lib/index.js:150-186 | one pass of the query loop: `e0`'s own case at the clipped time, then the ramp to `e1` when `e1` is one |
| Evaluation.ScanFrom | lib/index.js:147-187 | the loop from index `i` with a running value, stopping at the end or at the first event later than `t` |
| Evaluation.RestIndex | lib/index.js:156-175 | the cursor is left unchanged or on a visited event that is not a target approach, with every visited event up to it at or before `t` |
| Evaluation.SegmentIgnoresIncoming | lib/index.js:156-176 | every kind but a target approach ignores the value reaching it |
| Evaluation.ScanResumes | lib/index.js:143-147 | a scan that passes every event up to a non-target event gives the same value as a scan resumed at that event |
| Evaluation.ScanBeforeFirst | lib/index.js:147-154 | before the first event (or on an empty list) the value is the default |
| Evaluation.ScanSetValueSteps | lib/index.js:147-187 | a sorted set-value-only timeline is a step function: the value of the last event at or before `t` |
| Evaluation.ScanAtRampEnd | lib/index.js:177-186 | at a ramp's own time the value is exactly the ramp's value |
| Evaluation.ScanInsideRamp | lib/index.js:177-186 | strictly inside a ramp the value is the ramp formula from the previous event |
| Timeline.BackwardStop | lib/index.js:218-230 | the backward loop stops at the last index at or below `i` whose event is at or after the new time, all events passed being earlier |
| Timeline.BackwardScanStopsAtLast | lib/index.js:215-230 | outside the append branch the loop stops at once, at the last event |
| Timeline.Inserted | lib/index.js:208-234 | append when later than the last event; replace the last event in the same slot; go after a same-time event of another kind; otherwise go just before the last event |
| Timeline.InsertedSortedIff | lib/index.js:215-232 | on a sorted list the result is sorted iff the new time is at or after the second-to-last event's time |
| Timeline.InsertedDuplicatesSlot | lib/index.js:218-223 | only the last event is compared: a same-slot event further back is duplicated |
| Timeline.InsertedUnsorted | lib/index.js:218-232 | an event earlier than the last two lands between them, unsorted |
| Timeline.ScanBackward | lib/index.js:218-230 | the loop's index and `replace`/`addAfter` flags are those of `BackwardStop` |
| Timeline.FirstLater | lib/index.js:86-90 | the first index whose event is later than `t`, every event before it being at or before `t` |
| Timeline.ScanForLater | lib/index.js:86-90 | the forward loop computes `FirstLater` |
| Timeline.HoldIndex | lib/index.js:86-100 | the held index: the open-ended event just before the first later one, else that later one, else none |
| Timeline.Held | lib/index.js:102-124 | the held event: a ramp after a valued event frozen at its value at `t` and moved to `t`; an open-ended event given cancel time `t`; anything else unchanged |
| Timeline.HeldTimeline | lib/index.js:86-126 | the list after the hold: the held event rewritten and everything after it dropped |
| Timeline.HoldNoOpIff | lib/index.js:86-100 | the hold changes nothing iff no event is later than `t` and the last event is not open-ended |
| Timeline.HoldFreezesOpenEnded | lib/index.js:94-97 | an open-ended event just before the first later one gets cancel time `t`, otherwise unchanged, and becomes the last event; all kept events are at or before `t` |
| Timeline.HoldCutsAfterFirstLater | lib/index.js:102-126 | otherwise the list is cut after the first later event; a ramp there with a valued predecessor is moved to `t` with the ramp's value at `t`; a target approach or curve there keeps its fields and gets cancel time `t`; any other event there is kept unchanged, at its later time |
| Timeline.HoldBoundsAllButLast | lib/index.js:86-126 | after a hold every event except the last is at or before `t` |
| Timeline.HoldKeepsLaterSetValue | lib/index.js:102-126 | a later `setValueAtTime` survives a hold unchanged |
| Timeline.HoldMidRamp | lib/index.js:106-111 | holding a 0→1 ramp over [0, 10] at 5 leaves a ramp to 0.5 ending at 5 |
| Timeline.HeldWellFormed | lib/index.js:105-126 | a hold keeps the timeline well formed |
| Timeline.SoundCursor | lib/index.js:139-147 | a cursor the query may resume from: 0, or a non-target event with every event up to it at or before the last query time |
| Timeline.StartIndex | lib/index.js:139-145 | the query starts at the cursor, or at 0 for a time before the last query time |
| Timeline.SoundCursorScan | lib/index.js:139-147 | with a sound cursor, the resumed scan equals the scan from the first event |
| Timeline.QueryKeepsCursorSound | lib/index.js:143-190 | a query leaves a sound cursor for its own time |
| Timeline.InsertKeepsCursorSound | lib/index.js:215-232 | an append keeps a sound cursor; any other insertion resets it |
| Timeline.CancelKeepsCursorSound | lib/index.js:69-77 | a cancel at any time other than the last query time keeps the cursor sound |
| Timeline.CancelAtQueryTimeLosesValue | lib/index.js:69-77 | a cancel at exactly the last query time leaves a stale cursor; the resumed scan gives the default 0 where the scan from the start gives 5 |
| Timeline.HoldKeepsCursorSound | lib/index.js:80-134 | a hold at or after the last query time keeps the cursor sound |
| Timeline.Step | lib/index.js:148-186 | one pass of the query loop computes `SegmentValue` and moves the cursor to the event unless it is a target approach |
| Timeline.PseudoAudioParam.constructor | lib/index.js:10-15 | default value `defaultValue \|\| 0`, empty list, cursor at 0 |
| Timeline.PseudoAudioParam.InsertEvent | lib/index.js:208-234 | the list becomes `Inserted(old list, e)`; the cursor index is kept on append and reset otherwise; a sound cursor stays sound |
| Timeline.PseudoAudioParam.SetValueAtTime | lib/index.js:17-25 | inserts a `setValueAtTime` event |
| Timeline.PseudoAudioParam.LinearRampToValueAtTime | lib/index.js:27-35 | inserts a `linearRampToValueAtTime` event |
| Timeline.PseudoAudioParam.ExponentialRampToValueAtTime | lib/index.js:37-45 | inserts an `exponentialRampToValueAtTime` event |
| Timeline.PseudoAudioParam.SetTargetAtTime | lib/index.js:47-56 | inserts a `setTargetAtTime` event with no cancel time |
| Timeline.PseudoAudioParam.SetValueCurveAtTime | lib/index.js:58-67 | inserts a `setValueCurveAtTime` event with no cancel time |
| Timeline.PseudoAudioParam.CancelScheduledValues | lib/index.js:69-78 | the list becomes `Before(old list, t)`; the cursor resets iff `t` is before the last query time |
| Timeline.PseudoAudioParam.CancelAndHoldAtTime | lib/index.js:80-134 | the list becomes `HeldTimeline(old list, t)`; the cursor resets iff something was held and `t` is before the last query time |
| Timeline.PseudoAudioParam.GetValueAtTime | lib/index.js:136-193 | the value is the scan from the cursor (or from 0 for an earlier time); the cursor moves to `RestIndex` and `t`; with a sound cursor the value is the scan from the first event |
| Timeline.PseudoAudioParam.ApplyTo | lib/index.js:195-206 | the calls are an optional `cancelScheduledValues(0)` followed by `Replay(events, canHold)` |
| LegacyTimeline.ModifiedBinarySearch | lib/PseudoAudioParam.js:23-41 | `[m]` only for an event at exactly `t`; `[m, m+1]` only when `t` lies strictly between those events; otherwise `[p, undefined]` with start−1 ≤ p ≤ end |
| LegacyTimeline.SearchStaysBracketed | lib/PseudoAudioParam.js:23-41 | while the range is bracketed around `t`, the search never returns `[end, undefined]`, even on unsorted input |
| LegacyTimeline.FindIndex | lib/PseudoAudioParam.js:13-21 | `[undefined, 0]` iff empty or before the first event; `[len-1, undefined]` iff after the last; else a match or an adjacent pair around `t` |
| LegacyTimeline.FindIndexSortedExact | lib/PseudoAudioParam.js:13-41 | on a sorted list the search reports a match iff some event is at `t` |
| LegacyTimeline.LegacyStart | lib/PseudoAudioParam.js:130-140 | the scan starts at 0 or one event before the searched index, and the event after the start is at or before `t` |
| LegacyTimeline.LegacyScanAgrees | lib/PseudoAudioParam.js:130-172 | on a sorted list the legacy query equals the full scan unless it starts on a target approach |
| LegacyTimeline.LegacySetValueSteps | lib/PseudoAudioParam.js:123-175 | on a sorted set-value-only list the legacy query is a step function |
| LegacyTimeline.LegacyChainedTargets | lib/PseudoAudioParam.js:134-157 | with two chained target approaches the legacy query drops the value before them: 0 instead of the full scan's nonzero value |
| LegacyTimeline.FirstStop | lib/PseudoAudioParam.js:196-204 | the forward loop stops at the first event in the new event's slot or later than it, all passed events being earlier or at its time in another slot |
| LegacyTimeline.LegacyInserted | lib/PseudoAudioParam.js:187-207 | the list after the legacy `_insertEvent(e)`: append, or splice at the forward scan's stop, replacing an event in the same slot |
| LegacyTimeline.LegacyInsertedMembers | lib/PseudoAudioParam.js:187-207 | the result contains the new event and otherwise only events of the old list |
| LegacyTimeline.LegacyInsertKeepsValid | lib/PseudoAudioParam.js:187-207 | insertion keeps every event well formed and without a cancel time |
| LegacyTimeline.FirstStopSorted | lib/PseudoAudioParam.js:196-204 | on a sorted list the stop splits the events into those at or before the new time and those after |
| LegacyTimeline.LegacyInsertAdds | lib/PseudoAudioParam.js:193-205 | without an event in its slot the new event goes after every event at or before its time (same-time events of other kinds included) and before every later one |
| LegacyTimeline.LegacyInsertReplaces | lib/PseudoAudioParam.js:196-205 | with an event in its slot the new event replaces it in place |
| LegacyTimeline.LegacyInsertKeepsSorted | lib/PseudoAudioParam.js:187-207 | insertion keeps a sorted list sorted |
| LegacyTimeline.LegacyInsertKeepsUnique | lib/PseudoAudioParam.js:187-207 | insertion keeps a sorted list free of duplicate slots |
| LegacyTimeline.LegacyInsertAtLast | lib/PseudoAudioParam.js:193-205 | when the forward scan passes every event but the last, the event at the last slot is replaced, or the new event goes before a later last event, or after an earlier one |
| LegacyTimeline.InsertionsAgree | lib/PseudoAudioParam.js:193-205 | both insertions agree on sorted lists when the new time is not before the second-to-last event and only the last event can share its slot |
| LegacyTimeline.InsertionsDiffer | lib/PseudoAudioParam.js:196-205 | elsewhere they differ: a duplicate slot, and an unsorted insertion, that the legacy class avoids |
| LegacyTimeline.ScanForward | lib/PseudoAudioParam.js:196-204 | the loop's index and `replace` flag are those of `FirstStop` |
| LegacyTimeline.SearchStart | lib/PseudoAudioParam.js:130-141 | the scan's start index is `LegacyStart` |
| LegacyTimeline.LegacyStep | lib/PseudoAudioParam.js:142-171 | one pass of the query loop computes `SegmentValue` |
| LegacyTimeline.PseudoAudioParam.constructor | lib/PseudoAudioParam.js:59-62 | default value `defaultValue \|\| 0`, empty list |
| LegacyTimeline.PseudoAudioParam.InsertEvent | lib/PseudoAudioParam.js:187-207 | the list becomes `LegacyInserted(old list, e)`; it stays sorted, with at most one event per (time, kind) |
| LegacyTimeline.PseudoAudioParam.SetValueAtTime | lib/PseudoAudioParam.js:64-72 | inserts a `setValueAtTime` event |
| LegacyTimeline.PseudoAudioParam.LinearRampToValueAtTime | lib/PseudoAudioParam.js:74-82 | inserts a `linearRampToValueAtTime` event |
| LegacyTimeline.PseudoAudioParam.ExponentialRampToValueAtTime | lib/PseudoAudioParam.js:84-92 | inserts an `exponentialRampToValueAtTime` event |
| LegacyTimeline.PseudoAudioParam.SetTargetAtTime | lib/PseudoAudioParam.js:94-103 | inserts a `setTargetAtTime` event |
| LegacyTimeline.PseudoAudioParam.SetValueCurveAtTime | lib/PseudoAudioParam.js:105-114 | inserts a `setValueCurveAtTime` event |
| LegacyTimeline.PseudoAudioParam.CancelScheduledValues | lib/PseudoAudioParam.js:116-121 | the list becomes `Before(old list, t)`; it stays sorted, with at most one event per (time, kind) |
| LegacyTimeline.PseudoAudioParam.GetValueAtTime | lib/PseudoAudioParam.js:123-175 | the value is the scan from `LegacyStart`; unless that start is a target approach, it is the full scan (the class keeps its list sorted) |
| LegacyTimeline.PseudoAudioParam.ApplyTo | lib/PseudoAudioParam.js:177-185 | an optional `cancelScheduledValues(0)` followed by the scheduling calls in order, never a hold |
| Scenarios.CursorLoss | lib/index.js:69-77 | query at 10 gives 1; after a cancel at 10 the next query at 10 gives 0 while the remaining event holds 5 |
| Scenarios.ScheduleRamps | test/linearRampToValueAtTime.js:8-19 | ramps scheduled out of order and replaced at 20 end as a sorted list of three events |
| Scenarios.LinearRamps | test/linearRampToValueAtTime.js:20-25 | the values at 5 and 15 are 0.5 and 2 |
| Scenarios.ScheduleHeldRamp | test/linearRampToValueAtTime.js:28-40 | a ramp held at 5 becomes a ramp to 0.5 ending at 5, and a new ramp back to 0 at 10 goes after it |
| Scenarios.HeldRamp | test/linearRampToValueAtTime.js:44 | the value at 7.5 is 0.25 |
| Scenarios.ScheduleHeldTargets | test/setTargetAtTime.js:33-47 | the held approach carries cancel time 15 and the later approach follows it |
| Scenarios.HeldTargets | test/applyTo.js:63-78 | the value at 20 equals the value at 15; the replay puts the hold right after the held event's call |
| Scenarios.LegacyInsertsBetween | test/PseudoAudioParam.js:33-44 | legacy insertion of a value at 10 goes between the events at 0 and 20 |
| Scenarios.LegacyReplacesAtTwenty | test/PseudoAudioParam.js:33-44 | legacy insertion of a second value at 20 replaces the first |
| Scenarios.ScheduleLegacySteps | test/PseudoAudioParam.js:33-44 | the legacy list ends sorted with the replaced value at 20 |
| Scenarios.LegacySteps | test/PseudoAudioParam.js:45-50 | the legacy values at 15 and 25 are 1 and 3 |

## Left out

- Numbers are `real`. IEEE-754 rounding, NaN and Infinity are not modelled, and neither is the 32-bit wrap of `ix|0` in lib/expr.js:57.
- `Math.exp` and `Math.pow` are host functions. They are a `MathLib` parameter, and facts about them enter only through the requires of the lemmas that need them. No numeric value of theirs is proved, and neither are the test tolerances that depend on them.
- A negative `setTargetAtTime` time constant is modelled by the real formula, which diverges from the target; JavaScript may overflow to Infinity there.
- Expr.ValueCurveValue: requires a nonzero duration unless the curve has at most one sample. With a zero duration and two or more samples, JavaScript's `ix % 1` is NaN and so is the value. Where the truncated index is negative (−1 or below: with a positive duration, a query at least one sample step before the curve; with a negative one, at least one step after it), JavaScript reads `curve[-k]` and yields NaN; the model returns 0 there.
- Timeline.PseudoAudioParam.SetValueCurveAtTime: requires a nonzero duration or a curve of at most one sample, which the source does not check. The excluded curves have the value NaN whenever a query evaluates them.
- LegacyTimeline.PseudoAudioParam.SetValueCurveAtTime: requires a nonzero duration or a curve of at most one sample, which the source does not check, for the same reason.
- `applyTo`'s target parameter is not an object: the dynamic call `audioParam[event.type].apply(...)` is a `CallSchedule(kind, args)` entry of a returned trace. Whether the target has `cancelAndHoldAtTime` is the boolean `canHold`.
- `typeof` tests and the `defaultValue || 0` default become `Option` values. An event's `args` are derived from its fields (`Events.Args`), so they cannot disagree with them.
- Events are immutable values. The in-place field rewrite of lib/index.js:108-110 and 122 is a replacement of the list element. Aliasing of event objects or curve arrays outside the timeline is not modelled.
- Method chaining (`return this`) is left out.
- Timeline.PseudoAudioParam.GetValueAtTime, LegacyTimeline.PseudoAudioParam.GetValueAtTime: the value at the query time is stated as the scan function and through the lemmas about it, not as a closed formula for every timeline.
- `find_index` can return neither a match nor a pair only on input that `LegacyTimeline.FindIndex` rules out (its contract excludes `[undefined, undefined]`), so the legacy `Math.max(0, undefined - 1)` start is not modelled.
- The mocha tests and their spies are not modelled. The scenarios restate their call sequences and expected lists and values where these do not depend on `exp` or `pow`.
