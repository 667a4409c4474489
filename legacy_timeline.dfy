/** The older timeline class (lib/PseudoAudioParam.js): no cursor and no
    cancel-and-hold. `getValueAtTime` picks its starting event with a
    recursive binary search, and insertion scans forward from the front. */
module LegacyTimeline {
  import opened Expr
  import opened Events
  import opened Evaluation
  import Timeline

  // ---------------------------------------------------------------------
  // Binary search (lib/PseudoAudioParam.js:13-41)

  /** What `find_index` returns, with the comparison by event time:
      `[m]` (a match) or a pair `[prev, next]` where either may be undefined. */
  datatype Found = Exact(index: int) | Pair(prev: Option<int>, next: Option<int>)

  /** `modified_binary_search` over indices `start..end`. */
  function ModifiedBinarySearch(s: seq<Event>, start: int, end: int, t: real): (r: Found)
    requires 0 <= start <= end + 1 && end < |s|
    ensures r.Exact? ==> start <= r.index <= end && s[r.index].time == t
    ensures r.Pair? ==> r.prev.Some? && start - 1 <= r.prev.value <= end
    ensures r.Pair? && r.next.Some? ==>
      && r.next.value == r.prev.value + 1 < |s|
      && start <= r.prev.value
      && s[r.prev.value].time < t < s[r.next.value].time
    decreases end - start + 1
  {
    if start > end then Pair(Some(end), None)
    else
      var middle := (start + end) / 2;
      if s[middle].time < t && middle + 1 < |s| && s[middle + 1].time > t then Pair(Some(middle), Some(middle + 1))
      else if s[middle].time > t then ModifiedBinarySearch(s, start, middle - 1, t)
      else if s[middle].time < t then ModifiedBinarySearch(s, middle + 1, end, t)
      else Exact(middle)
  }

  /** The search never runs out of range (`[end, undefined]`) while the
      event at `start` is at or before `t` (or, past the end, the last event
      is before it) and the event after `end` is after `t` (or `end` is the
      last index and its event is not before `t`). No sortedness is needed:
      every step of the search keeps both brackets. */
  lemma {:induction false} SearchStaysBracketed(s: seq<Event>, start: int, end: int, t: real)
    requires 0 <= start && -1 <= end < |s| && start <= end + 1
    requires (start < |s| && s[start].time <= t) || (start == |s| && 0 < |s| && s[|s| - 1].time < t)
    requires (end == |s| - 1 && t <= s[|s| - 1].time) || (end < |s| - 1 && t < s[end + 1].time)
    ensures var r := ModifiedBinarySearch(s, start, end, t); r.Exact? || r.next.Some?
    decreases end - start + 1
  {
    if start > end {
      assert false;
    } else {
      var middle := (start + end) / 2;
      assert start <= middle <= end;
      if s[middle].time < t && middle + 1 < |s| && s[middle + 1].time > t {
      } else if s[middle].time > t {
        assert middle - 1 < |s| - 1 && t < s[middle].time;
        SearchStaysBracketed(s, start, middle - 1, t);
      } else if s[middle].time < t {
        assert middle + 1 < |s| ==> s[middle + 1].time <= t;
        SearchStaysBracketed(s, middle + 1, end, t);
      }
    }
  }

  /** `find_index(events, {time: t}, compareFn)`: before the first event (or
      on an empty list) the pair `[undefined, 0]`; after the last one the pair
      `[last, undefined]`; otherwise a matching index or the two adjacent
      events around `t`. */
  function FindIndex(s: seq<Event>, t: real): (r: Found)
    ensures (|s| == 0 || t < s[0].time) <==> r == Pair(None, Some(0))
    ensures (0 < |s| && s[0].time <= t && s[|s| - 1].time < t) <==> r == Pair(Some(|s| - 1), None)
    ensures 0 < |s| && s[0].time <= t <= s[|s| - 1].time ==>
      r.Exact? || (r.prev.Some? && r.next.Some?)
    ensures r.Exact? ==> 0 <= r.index < |s| && s[r.index].time == t
    ensures r.Pair? && r.prev.Some? && r.next.Some? ==>
      var m := r.prev.value;
      0 <= m && m + 1 < |s| && r.next.value == m + 1 && s[m].time < t < s[m + 1].time
  {
    if |s| == 0 || t < s[0].time then Pair(None, Some(0))
    else if t > s[|s| - 1].time then Pair(Some(|s| - 1), None)
    else
      SearchStaysBracketed(s, 0, |s| - 1, t);
      ModifiedBinarySearch(s, 0, |s| - 1, t)
  }

  /** On a sorted timeline the search reports a match exactly when some
      event has time `t`. */
  lemma FindIndexSortedExact(s: seq<Event>, t: real)
    requires Sorted(s)
    ensures FindIndex(s, t).Exact? <==> exists j :: 0 <= j < |s| && s[j].time == t
  {
    var r := FindIndex(s, t);
    if exists j :: 0 <= j < |s| && s[j].time == t {
      var j :| 0 <= j < |s| && s[j].time == t;
      if !r.Exact? {
        var m := r.prev.value;
        assert j <= m || m + 1 <= j;
      }
    }
  }

  /** Where `getValueAtTime` starts its scan: one event before the search's
      index (`Math.max(0, i - 1)`), where the index is the match or the
      pair's first element, or else its second. The event after the start
      is always at or before `t`. */
  function LegacyStart(s: seq<Event>, t: real): (start: nat)
    ensures start == 0 || (start + 1 < |s| && s[start + 1].time <= t)
  {
    var r := FindIndex(s, t);
    var i := if r.Exact? then r.index else if r.prev.Some? then r.prev.value else r.next.value;
    if i - 1 < 0 then 0 else i - 1
  }

  /** On a sorted timeline the scan from the searched start gives the value
      of the scan from the first event, unless it starts on a target
      approach (whose value depends on the value reaching it). */
  lemma LegacyScanAgrees(m: MathLib, s: seq<Event>, t: real, d: real)
    requires AllWellFormed(s) && Sorted(s)
    requires LegacyStart(s, t) == 0 || !s[LegacyStart(s, t)].SetTarget?
    ensures ScanFrom(m, s, LegacyStart(s, t), t, d) == ScanFrom(m, s, 0, t, d)
  {
    var k := LegacyStart(s, t);
    if k != 0 {
      SortedPrefixBefore(s, k + 1, t);
      ScanResumes(m, s, 0, k, t, d, d);
    }
  }

  /** For a sorted timeline of `setValueAtTime` events only, the legacy
      query is a step function: the value of the last event at or before `t`. */
  lemma LegacySetValueSteps(m: MathLib, s: seq<Event>, k: nat, t: real, d: real)
    requires AllWellFormed(s) && Sorted(s)
    requires forall i :: 0 <= i < |s| ==> s[i].SetValue?
    requires k < |s| && s[k].time <= t && (k + 1 == |s| || t < s[k + 1].time)
    ensures ScanFrom(m, s, LegacyStart(s, t), t, d) == s[k].value
  {
    LegacyScanAgrees(m, s, t, d);
    ScanSetValueSteps(m, s, k, t, d);
  }

  /** Two chained target approaches: the search starts the scan at the first
      of them, without the value set before it, so the legacy query at the
      second one's time gives 0 where the full scan gives the first
      approach's value, which is not 0. */
  lemma LegacyChainedTargets(m: MathLib, tc: real)
    requires ExpDecays(m) && 0.0 < tc
    ensures var s := [SetValue(1.0, 0.0), SetTarget(0.0, 1.0, tc, None), SetTarget(0.0, 2.0, tc, None)];
      && LegacyStart(s, 2.0) == 1
      && ScanFrom(m, s, LegacyStart(s, 2.0), 2.0, 0.0) == 0.0
      && ScanFrom(m, s, 0, 2.0, 0.0) != 0.0
  {
    var s := [SetValue(1.0, 0.0), SetTarget(0.0, 1.0, tc, None), SetTarget(0.0, 2.0, tc, None)];
    assert ModifiedBinarySearch(s, 0, 2, 2.0) == ModifiedBinarySearch(s, 2, 2, 2.0) == Exact(2);
    var e := TargetValue(m, 2.0, 1.0, 0.0, 1.0, tc);
    TargetApproaches(m, 2.0, 1.0, 0.0, 1.0, tc);
    assert SegmentValue(m, s, 0, 2.0, 0.0) == 1.0;
    assert SegmentValue(m, s, 1, 2.0, 1.0) == e;
    assert SegmentValue(m, s, 2, 2.0, e) == e;
    assert ScanFrom(m, s, 3, 2.0, e) == e;
    assert ScanFrom(m, s, 2, 2.0, e) == e;
    assert ScanFrom(m, s, 1, 2.0, 1.0) == e;
    assert ScanFrom(m, s, 0, 2.0, 0.0) == e;
    assert SegmentValue(m, s, 1, 2.0, 0.0) == 0.0;
    assert SegmentValue(m, s, 2, 2.0, 0.0) == 0.0;
    assert ScanFrom(m, s, 2, 2.0, 0.0) == 0.0;
  }

  // ---------------------------------------------------------------------
  // Insertion (lib/PseudoAudioParam.js:187-207)

  /** Where the forward `for` loop starting at `i` stops: the first event in
      the new event's slot or later than it, or the length. */
  function FirstStop(s: seq<Event>, e: Event, i: nat): (r: nat)
    requires i <= |s|
    ensures i <= r <= |s|
    ensures r < |s| ==> SameSlot(s[r], e) || e.time < s[r].time
    ensures forall j :: i <= j < r ==> !SameSlot(s[j], e) && s[j].time <= e.time
    decreases |s| - i
  {
    if i == |s| || SameSlot(s[i], e) || e.time < s[i].time then i else FirstStop(s, e, i + 1)
  }

  /** The list after the legacy `_insertEvent(e)`: append, or splice at the
      forward scan's stop, replacing the event there when it is in the same
      slot. */
  function LegacyInserted(s: seq<Event>, e: Event): seq<Event>
  {
    if IsAppend(s, e) then s + [e]
    else
      var i := FirstStop(s, e, 0);
      Splice(s, i, if i < |s| && SameSlot(s[i], e) then 1 else 0, e)
  }

  /** Insertion adds the new event and nothing but events of the old list. */
  lemma LegacyInsertedMembers(s: seq<Event>, e: Event)
    ensures e in LegacyInserted(s, e)
    ensures forall x :: x in LegacyInserted(s, e) ==> x in s || x == e
  {
    if !IsAppend(s, e) {
      var i := FirstStop(s, e, 0);
      var d := if i < |s| && SameSlot(s[i], e) then 1 else 0;
      assert LegacyInserted(s, e) == s[..i] + [e] + s[i + d..];
      assert LegacyInserted(s, e)[i] == e;
      forall x | x in LegacyInserted(s, e) ensures x in s || x == e {
        if x in s[..i] {
          assert x in s;
        } else if x in s[i + d..] {
          assert x in s;
        }
      }
    }
  }

  /** Insertion of a well-formed event without cancel time keeps every
      event well formed and without cancel time. */
  lemma LegacyInsertKeepsValid(s: seq<Event>, e: Event)
    requires AllWellFormed(s) && forall i :: 0 <= i < |s| ==> !s[i].IsCancelled()
    requires e.WellFormed() && !e.IsCancelled()
    ensures var r := LegacyInserted(s, e);
      AllWellFormed(r) && forall i :: 0 <= i < |r| ==> !r[i].IsCancelled()
  {
    var r := LegacyInserted(s, e);
    LegacyInsertedMembers(s, e);
    forall i | 0 <= i < |r| ensures r[i].WellFormed() && !r[i].IsCancelled() {
      assert r[i] in r;
    }
  }

  /** The forward scan passes over events outside the new event's slot and
      not later than it. */
  lemma {:induction false} FirstStopSkips(s: seq<Event>, e: Event, i: nat, k: nat)
    requires i <= k <= |s|
    requires forall j :: i <= j < k ==> !SameSlot(s[j], e) && s[j].time <= e.time
    ensures FirstStop(s, e, i) == FirstStop(s, e, k)
    decreases k - i
  {
    if i < k {
      FirstStopSkips(s, e, i + 1, k);
    }
  }

  /** On a sorted list the forward scan stops at the first later event or
      at the event in the new event's slot. */
  lemma FirstStopSorted(s: seq<Event>, e: Event)
    requires Sorted(s)
    ensures var i := FirstStop(s, e, 0);
      && (forall j :: 0 <= j < i ==> s[j].time <= e.time)
      && (forall j :: i < j < |s| ==> e.time <= s[j].time)
      && (i < |s| && !SameSlot(s[i], e) ==> e.time < s[i].time)
  {
  }

  /** Without an event in its slot, the new event goes in after every event
      at or before its time and before every later one: after same-time
      events of other kinds, in insertion order. */
  lemma LegacyInsertAdds(s: seq<Event>, e: Event)
    requires Sorted(s) && forall j :: 0 <= j < |s| ==> !SameSlot(s[j], e)
    ensures var i := FirstStop(s, e, 0);
      && LegacyInserted(s, e) == s[..i] + [e] + s[i..]
      && (forall j :: 0 <= j < i ==> s[j].time <= e.time)
      && (forall j :: i <= j < |s| ==> e.time < s[j].time)
  {
    var i := FirstStop(s, e, 0);
    FirstStopSorted(s, e);
    if IsAppend(s, e) {
      assert forall j :: 0 <= j < |s| ==> s[j].time < e.time by {
        forall j | 0 <= j < |s| ensures s[j].time < e.time {
          assert s[j].time <= s[|s| - 1].time;
        }
      }
      assert s[..i] + [e] + s[i..] == s + [e];
    }
  }

  /** With an event already in its slot (on a sorted list without duplicate
      slots), the new event replaces it in place. */
  lemma LegacyInsertReplaces(s: seq<Event>, e: Event, j: nat)
    requires Sorted(s) && UniqueSlots(s) && j < |s| && SameSlot(s[j], e)
    ensures LegacyInserted(s, e) == s[j := e]
  {
    var i := FirstStop(s, e, 0);
    FirstStopSorted(s, e);
    assert !IsAppend(s, e) by {
      assert s[j].time <= s[|s| - 1].time;
    }
    assert forall k :: 0 <= k < j ==> !SameSlot(s[k], e) && s[k].time <= e.time by {
      forall k | 0 <= k < j ensures !SameSlot(s[k], e) && s[k].time <= e.time {
        assert !SameSlot(s[k], s[j]);
      }
    }
    assert i == j;
    assert Splice(s, i, 1, e) == s[j := e];
  }

  /** Inserting at a position that splits the list into the events at or
      before the new time and those at or after it keeps it sorted. */
  lemma SortedSplice(s: seq<Event>, i: nat, e: Event)
    requires Sorted(s) && i <= |s|
    requires forall j :: 0 <= j < i ==> s[j].time <= e.time
    requires forall j :: i <= j < |s| ==> e.time <= s[j].time
    ensures Sorted(s[..i] + [e] + s[i..])
  {
    var r := s[..i] + [e] + s[i..];
    forall a, b | 0 <= a < b < |r| ensures r[a].time <= r[b].time {
      if a == i {
        assert r[b] == s[b - 1];
      } else if b == i {
        assert r[a] == s[a];
      } else {
        var a' := if a < i then a else a - 1;
        var b' := if b < i then b else b - 1;
        assert r[a] == s[a'] && r[b] == s[b'] && a' < b';
      }
    }
  }

  /** Inserting an event outside every slot of the list adds no duplicate. */
  lemma UniqueSplice(s: seq<Event>, i: nat, e: Event)
    requires UniqueSlots(s) && i <= |s|
    requires forall j :: 0 <= j < |s| ==> !SameSlot(s[j], e)
    ensures UniqueSlots(s[..i] + [e] + s[i..])
  {
    var r := s[..i] + [e] + s[i..];
    forall a, b | 0 <= a < b < |r| ensures !SameSlot(r[a], r[b]) {
      if a == i {
        assert r[b] == s[b - 1];
      } else if b == i {
        assert r[a] == s[a];
      } else {
        var a' := if a < i then a else a - 1;
        var b' := if b < i then b else b - 1;
        assert r[a] == s[a'] && r[b] == s[b'] && a' < b';
      }
    }
  }

  /** Replacing an event by one at the same time keeps a list sorted. */
  lemma SortedUpdate(s: seq<Event>, i: nat, e: Event)
    requires Sorted(s) && i < |s| && s[i].time == e.time
    ensures Sorted(s[i := e])
  {
  }

  /** Replacing an event by one in the same slot adds no duplicate. */
  lemma UniqueUpdate(s: seq<Event>, i: nat, e: Event)
    requires UniqueSlots(s) && i < |s| && SameSlot(s[i], e)
    ensures UniqueSlots(s[i := e])
  {
    var r := s[i := e];
    forall a, b | 0 <= a < b < |r| ensures !SameSlot(r[a], r[b]) {
      assert !SameSlot(s[a], s[b]);
    }
  }

  /** Appending an event later than the last keeps a list sorted. */
  lemma AppendKeepsSorted(s: seq<Event>, e: Event)
    requires Sorted(s) && IsAppend(s, e)
    ensures Sorted(s + [e])
  {
    assert forall j :: 0 <= j < |s| ==> s[j].time <= e.time by {
      forall j | 0 <= j < |s| ensures s[j].time <= e.time {
        assert s[j].time <= s[|s| - 1].time;
      }
    }
    SortedSplice(s, |s|, e);
    assert s[..|s|] + [e] + s[|s|..] == s + [e];
  }

  /** The splice at the forward scan's stop keeps a list sorted. */
  lemma StopKeepsSorted(s: seq<Event>, e: Event)
    requires Sorted(s)
    ensures var i := FirstStop(s, e, 0);
      Sorted(Splice(s, i, if i < |s| && SameSlot(s[i], e) then 1 else 0, e))
  {
    var i := FirstStop(s, e, 0);
    FirstStopSorted(s, e);
    if i < |s| && SameSlot(s[i], e) {
      SortedUpdate(s, i, e);
      assert Splice(s, i, 1, e) == s[i := e];
    } else {
      SortedSplice(s, i, e);
    }
  }

  /** Insertion keeps a sorted list sorted. */
  lemma LegacyInsertKeepsSorted(s: seq<Event>, e: Event)
    requires Sorted(s)
    ensures Sorted(LegacyInserted(s, e))
  {
    if IsAppend(s, e) {
      AppendKeepsSorted(s, e);
    } else {
      StopKeepsSorted(s, e);
    }
  }

  /** Insertion keeps a sorted list free of duplicate slots. */
  lemma LegacyInsertKeepsUnique(s: seq<Event>, e: Event)
    requires Sorted(s) && UniqueSlots(s)
    ensures UniqueSlots(LegacyInserted(s, e))
  {
    if j :| 0 <= j < |s| && SameSlot(s[j], e) {
      LegacyInsertReplaces(s, e, j);
      UniqueUpdate(s, j, e);
    } else {
      LegacyInsertAdds(s, e);
      UniqueSplice(s, FirstStop(s, e, 0), e);
    }
  }

  /** The two insertions agree on a sorted list when the new event is not
      earlier than the second-to-last event and no event but the last is in
      its slot: there the current class's single comparison suffices. */
  lemma InsertionsAgree(s: seq<Event>, e: Event)
    requires Sorted(s) && (|s| < 2 || s[|s| - 2].time <= e.time)
    requires forall j :: 0 <= j < |s| - 1 ==> !SameSlot(s[j], e)
    ensures Timeline.Inserted(s, e) == LegacyInserted(s, e)
  {
    var n := |s|;
    if !IsAppend(s, e) {
      forall j | 0 <= j < n - 1
        ensures !SameSlot(s[j], e) && s[j].time <= e.time
      {
        assert s[j].time <= s[n - 2].time;
      }
      LegacyInsertAtLast(s, e);
    }
  }

  /** When the forward scan passes every event but the last, the legacy
      insertion does what the current class does at the last event. */
  lemma LegacyInsertAtLast(s: seq<Event>, e: Event)
    requires !IsAppend(s, e)
    requires forall j :: 0 <= j < |s| - 1 ==> !SameSlot(s[j], e) && s[j].time <= e.time
    ensures var n := |s|; var r := LegacyInserted(s, e);
      && (SameSlot(s[n - 1], e) ==> r == s[..n - 1] + [e])
      && (!SameSlot(s[n - 1], e) && e.time < s[n - 1].time ==> r == s[..n - 1] + [e, s[n - 1]])
      && (!SameSlot(s[n - 1], e) && s[n - 1].time <= e.time ==> r == s + [e])
  {
    var n := |s|;
    LastStop(s, e);
    if SameSlot(s[n - 1], e) {
      assert LegacyInserted(s, e) == Splice(s, n - 1, 1, e);
      assert s[n..] == [];
    } else if e.time < s[n - 1].time {
      assert LegacyInserted(s, e) == Splice(s, n - 1, 0, e);
      assert s[n - 1..] == [s[n - 1]];
    } else {
      assert LegacyInserted(s, e) == Splice(s, n, 0, e);
      assert s[..n] == s && s[n..] == [];
    }
  }

  /** Where the forward scan stops when it passes every event but the last. */
  lemma LastStop(s: seq<Event>, e: Event)
    requires 0 < |s|
    requires forall j :: 0 <= j < |s| - 1 ==> !SameSlot(s[j], e) && s[j].time <= e.time
    ensures FirstStop(s, e, 0) == if SameSlot(s[|s| - 1], e) || e.time < s[|s| - 1].time then |s| - 1 else |s|
  {
    FirstStopSkips(s, e, 0, |s| - 1);
  }

  /** Outside those conditions they differ: the current class keeps a
      duplicate slot that the legacy class replaces, and places an earlier
      event out of order where the legacy class keeps the list sorted. */
  lemma InsertionsDiffer()
    ensures var s := [SetValue(0.0, 5.0), LinearRamp(1.0, 5.0)];
      && Timeline.Inserted(s, SetValue(2.0, 5.0)) == s + [SetValue(2.0, 5.0)]
      && LegacyInserted(s, SetValue(2.0, 5.0)) == [SetValue(2.0, 5.0), LinearRamp(1.0, 5.0)]
    ensures var s := [SetValue(0.0, 0.0), SetValue(1.0, 10.0), SetValue(2.0, 20.0)];
      && !Sorted(Timeline.Inserted(s, SetValue(3.0, 5.0)))
      && LegacyInserted(s, SetValue(3.0, 5.0))
         == [SetValue(0.0, 0.0), SetValue(3.0, 5.0), SetValue(1.0, 10.0), SetValue(2.0, 20.0)]
  {
    var s := [SetValue(0.0, 5.0), LinearRamp(1.0, 5.0)];
    assert FirstStop(s, SetValue(2.0, 5.0), 0) == 0;
    var u := [SetValue(0.0, 0.0), SetValue(1.0, 10.0), SetValue(2.0, 20.0)];
    assert FirstStop(u, SetValue(3.0, 5.0), 0) == 1;
    var r := Timeline.Inserted(u, SetValue(3.0, 5.0));
    assert r[1].time > r[2].time;
  }

  /** The forward `for` loop of lib/PseudoAudioParam.js:196-204. */
  method ScanForward(s: seq<Event>, e: Event) returns (i: nat, replace: nat)
    ensures i == FirstStop(s, e, 0)
    ensures replace == if i < |s| && SameSlot(s[i], e) then 1 else 0
  {
    replace := 0;
    i := 0;
    while i < |s|
      invariant i <= |s|
      invariant FirstStop(s, e, i) == FirstStop(s, e, 0)
    {
      if s[i].time == e.time && s[i].Kind() == e.Kind() {
        replace := 1;
        break;
      }
      if e.time < s[i].time {
        break;
      }
      i := i + 1;
    }
  }

  /** The start of the `getValueAtTime` scan: one before the searched index. */
  method SearchStart(s: seq<Event>, t: real) returns (i: nat)
    ensures i == LegacyStart(s, t)
  {
    var idx := FindIndex(s, t);
    var j: int;
    if idx.Exact? {
      j := idx.index;
    } else if idx.prev.Some? {
      j := idx.prev.value;
    } else {
      j := idx.next.value;
    }
    i := if j - 1 < 0 then 0 else j - 1;
  }

  /** One pass of the `for` loop of `getValueAtTime` over event `i`, which
      is at or before the query time: the event's own case at the time
      clipped to the next event, then the ramp to the next event when there
      is one. Legacy events carry no cancel time. */
  method LegacyStep(m: MathLib, s: seq<Event>, i: nat, t: real, value: real) returns (r: real)
    requires AllWellFormed(s) && i < |s| && !s[i].IsCancelled()
    ensures r == SegmentValue(m, s, i, t, value)
  {
    var n := |s|;
    var e0 := s[i];
    var t0 := if i + 1 < n then Min(t, s[i + 1].time) else t;
    match e0 {
      case SetValue(v, _) =>
        r := v;
      case LinearRamp(v, _) =>
        r := v;
      case ExponentialRamp(v, _) =>
        r := v;
      case SetTarget(v, time, c, _) =>
        r := TargetValue(m, t0, value, v, time, c);
      case SetValueCurve(curve, time, d, _) =>
        r := ValueCurveValue(t0, curve, time, d);
    }
    if i + 1 < n {
      match s[i + 1] {
        case LinearRamp(v1, t1) =>
          r := LinearRampValue(t0, r, v1, e0.time, t1);
        case ExponentialRamp(v1, t1) =>
          r := ExponentialRampValue(m, t0, r, v1, e0.time, t1);
        case _ =>
      }
    }
  }

  // ---------------------------------------------------------------------
  // The timeline object

  class PseudoAudioParam {
    const defaultValue: real
    var events: seq<Event>

    /** The events are in time order with at most one per (time, kind);
        each is well formed and, as nothing here can cancel-and-hold,
        carries no cancel time. */
    ghost predicate Valid()
      reads this
    {
      && Sorted(events) && UniqueSlots(events)
      && AllWellFormed(events) && forall i :: 0 <= i < |events| ==> !events[i].IsCancelled()
    }

    /** `defaultValue || 0`: a missing default is 0. */
    constructor (defaultValue: Option<real>)
      ensures Valid()
      ensures this.defaultValue == if defaultValue.Some? then defaultValue.value else 0.0
      ensures events == []
    {
      this.defaultValue := if defaultValue.Some? then defaultValue.value else 0.0;
      events := [];
    }

    /** `_insertEvent`. */
    method InsertEvent(e: Event)
      requires Valid() && e.WellFormed() && !e.IsCancelled()
      modifies this
      ensures Valid()
      ensures events == LegacyInserted(old(events), e)
    {
      var s := events;
      LegacyInsertKeepsValid(s, e);
      LegacyInsertKeepsSorted(s, e);
      LegacyInsertKeepsUnique(s, e);
      var time := e.time;
      if |s| == 0 || s[|s| - 1].time < time {
        events := s + [e];
      } else {
        var i, replace := ScanForward(s, e);
        events := Splice(s, i, replace, e);
      }
    }

    method SetValueAtTime(value: real, time: real)
      requires Valid()
      modifies this
      ensures Valid() && events == LegacyInserted(old(events), SetValue(value, time))
    {
      InsertEvent(SetValue(value, time));
    }

    method LinearRampToValueAtTime(value: real, time: real)
      requires Valid()
      modifies this
      ensures Valid() && events == LegacyInserted(old(events), LinearRamp(value, time))
    {
      InsertEvent(LinearRamp(value, time));
    }

    method ExponentialRampToValueAtTime(value: real, time: real)
      requires Valid()
      modifies this
      ensures Valid() && events == LegacyInserted(old(events), ExponentialRamp(value, time))
    {
      InsertEvent(ExponentialRamp(value, time));
    }

    method SetTargetAtTime(value: real, time: real, timeConstant: real)
      requires Valid()
      modifies this
      ensures Valid() && events == LegacyInserted(old(events), SetTarget(value, time, timeConstant, None))
    {
      InsertEvent(SetTarget(value, time, timeConstant, None));
    }

    method SetValueCurveAtTime(curve: seq<real>, time: real, duration: real)
      requires Valid() && (duration != 0.0 || |curve| <= 1)
      modifies this
      ensures Valid() && events == LegacyInserted(old(events), SetValueCurve(curve, time, duration, None))
    {
      InsertEvent(SetValueCurve(curve, time, duration, None));
    }

    /** `cancelScheduledValues(t)`: keep the events before `t`. */
    method CancelScheduledValues(t: real)
      requires Valid()
      modifies this
      ensures Valid() && events == Before(old(events), t)
    {
      var s := events;
      BeforeKeepsSorted(s, t);
      BeforeKeepsUnique(s, t);
      events := Before(s, t);
    }

    /** `getValueAtTime(t)`: the scan from the searched start. */
    method GetValueAtTime(t: real, m: MathLib) returns (value: real)
      requires Valid()
      ensures value == ScanFrom(m, events, LegacyStart(events, t), t, defaultValue)
      ensures LegacyStart(events, t) == 0 || !events[LegacyStart(events, t)].SetTarget? ==>
        value == ScanFrom(m, events, 0, t, defaultValue)
    {
      value := defaultValue;
      var s := events;
      var i := SearchStart(s, t);
      ghost var start := i;
      if start == 0 || !s[start].SetTarget? {
        LegacyScanAgrees(m, s, t, defaultValue);
      }
      var n := |s|;
      while i < n
        invariant start <= i
        invariant ScanFrom(m, s, start, t, defaultValue) == ScanFrom(m, s, i, t, value)
        decreases n - i
      {
        if t < s[i].time {
          break;
        }
        value := LegacyStep(m, s, i, t, value);
        i := i + 1;
      }
    }

    /** `applyTo(target, reset)`: the calls issued on the target, in order;
        never a cancel-and-hold. */
    method ApplyTo(reset: bool) returns (calls: seq<TargetCall>)
      ensures calls == (if reset then [CallCancelScheduledValues(0.0)] else []) + Replay(events, false)
    {
      calls := if reset then [CallCancelScheduledValues(0.0)] else [];
      var s := events;
      var replayed := [];
      var i := 0;
      while i < |s|
        invariant 0 <= i <= |s|
        invariant replayed == Replay(s[..i], false)
      {
        replayed := replayed + [CallSchedule(s[i].Kind(), Args(s[i]))];
        ReplayStep(s, i, false);
        i := i + 1;
      }
      assert s[..i] == s;
      calls := calls + replayed;
    }
  }
}
