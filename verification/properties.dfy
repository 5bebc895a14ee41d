/** Properties that relate several operations of the engine: edits that
    undo each other, the worked examples of the agenda, and the limits of
    the single collision nudge. */
module Properties {
  import opened Options
  import opened Clock
  import opened Timeline
  import opened Edits
  import opened Reorder
  import opened Slots

  /** Setting an event back to its old time undoes a time change, on a
      fully timed agenda: the cascade moves every later event by exactly the
      same amount both ways. */
  lemma ChangeEventTimeUndo(a: Agenda, index: nat, t: Minute)
    requires Timed(a) && index < |a|
    ensures ChangeEventTime(ChangeEventTime(a, index, t), index, a[index].time.value) == a
  {
    var was := a[index].time.value;
    var r := ChangeEventTime(a, index, t);
    var back := ChangeEventTime(r, index, was);
    if was != t {
      var d := Delta(t, was);
      assert Delta(was, t) == -d;
      forall i | index <= i < |a|
        ensures back[i] == a[i]
      {
        ShiftEventUndo(a[i], d);
      }
    }
  }

  /** Setting a sub-item back to its old time undoes a sub-item time change,
      on a fully timed agenda. */
  lemma ChangeSubTimeUndo(a: Agenda, ev: nat, sub: nat, t: Minute)
    requires Timed(a) && ev < |a| && sub < |a[ev].subs|
    ensures ChangeSubTime(ChangeSubTime(a, ev, sub, t), ev, sub, a[ev].subs[sub].time.value) == a
  {
    var was := a[ev].subs[sub].time.value;
    var r := ChangeSubTime(a, ev, sub, t);
    var back := ChangeSubTime(r, ev, sub, was);
    if was != t {
      var d := Delta(t, was);
      assert Delta(was, t) == -d;
      forall i | ev < i < |a|
        ensures back[i] == a[i]
      {
        ShiftEventUndo(a[i], d);
      }
      forall k | sub < k < |a[ev].subs|
        ensures back[ev].subs[k] == a[ev].subs[k]
      {
        ShiftUndo(a[ev].subs[k].time.value, d);
      }
      assert back[ev].subs == a[ev].subs;
    }
  }

  /** Removing the event just appended restores the agenda. */
  lemma RemoveEventUndoesAdd(a: Agenda, newId: Id)
    ensures RemoveEvent(AddEventAtEnd(a, newId), |a|) == a
  {
  }

  /** Removing the sub-item just added restores the agenda when the new
      sub-item did not collide with the next event. */
  lemma RemoveSubUndoesAdd(a: Agenda, index: nat, newId: Id)
    requires index < |a|
    requires !Collides(a, index)
    ensures RemoveSub(AddSubTo(a, index, newId), index, |a[index].subs|) == a
  {
    var r := AddSubTo(a, index, newId);
    var back := RemoveSub(r, index, |a[index].subs|);
    assert r[index].subs[..|a[index].subs|] == a[index].subs;
    assert back[index] == a[index];
    assert forall i :: 0 <= i < |a| ==> back[i] == a[i];
  }

  /** An empty partial update changes nothing; applying one twice is
      applying it once. */
  lemma UpdateEventPatch(a: Agenda, index: nat, p: Patch)
    requires index < |a|
    ensures UpdateEvent(a, index, NoChange) == a
    ensures UpdateEvent(UpdateEvent(a, index, p), index, p) == UpdateEvent(a, index, p)
  {
  }

  lemma UpdateSubPatch(a: Agenda, ev: nat, sub: nat, p: Patch)
    requires ev < |a| && sub < |a[ev].subs|
    ensures UpdateSub(a, ev, sub, NoChange) == a
    ensures UpdateSub(UpdateSub(a, ev, sub, p), ev, sub, p) == UpdateSub(a, ev, sub, p)
  {
    var r := UpdateSub(a, ev, sub, NoChange);
    assert r[ev].subs == a[ev].subs;
    assert r[ev] == a[ev];
    var once := UpdateSub(a, ev, sub, p);
    var twice := UpdateSub(once, ev, sub, p);
    assert twice[ev].subs == once[ev].subs;
    assert twice[ev] == once[ev];
  }

  /** Dragging an event onto itself, or with no event being dragged, is a
      no-op. */
  lemma MoveEventOntoItself(a: Agenda, id: Option<Id>)
    ensures MoveEvent(a, id, id) == a
    ensures MoveEvent(a, None, id) == a && MoveEvent(a, id, None) == a
  {
  }

  /** Events appended one after another step 15 minutes apart: the new
      event has no sub-items, so it is the last time in use. */
  lemma AppendStepsDefaultTime(a: Agenda, newId: Id)
    ensures NextDefaultTime(AddEventAtEnd(a, newId)) == Shift(NextDefaultTime(a), Step)
  {
    var r := AddEventAtEnd(a, newId);
    assert r[|r| - 1].subs == [];
  }

  /** Sub-items added one after another step 15 minutes apart, whether or
      not the addition nudged the later events. */
  lemma AddSubStepsDefaultTime(a: Agenda, index: nat, newId: Id)
    requires index < |a|
    ensures DefaultSubTime(AddSubTo(a, index, newId)[index]) == Shift(DefaultSubTime(a[index]), Step)
  {
    var e := AddSubTo(a, index, newId)[index];
    assert e.subs[|e.subs| - 1].time == Some(DefaultSubTime(a[index]));
  }

  /** The first sub-item of any event takes the event's own time (its
      fallback 08:00 when it has none), with no 15-minute step. */
  lemma AddSubFirstAtEventTime(a: Agenda, index: nat, newId: Id)
    requires index < |a|
    ensures |a[index].subs| == 0 ==>
      AddSubTo(a, index, newId)[index].subs == [Sub(newId, Some(EventTime(a[index])), "")]
  {
  }

  // ---------------------------------------------------------------------
  // Worked examples

  /** The first event of an empty agenda is an empty 08:00 event. */
  lemma ExampleFirstEvent()
    ensures AddEventAtEnd([], 1) == [Event(1, Some(480), "", [])]
  {
  }

  /** 08:00 A, 08:15 B; moving A to 09:00 moves B to 09:15. */
  lemma ExampleChangeEventTime()
    ensures ChangeEventTime([Event(1, Some(480), "A", []), Event(2, Some(495), "B", [])], 0, 540)
         == [Event(1, Some(540), "A", []), Event(2, Some(555), "B", [])]
  {
  }

  /** 08:00 with a sub-item at 08:15, next event at 08:20: the new sub-item
      lands at 08:30, which passes 08:20, so the next event moves to 08:35. */
  lemma ExampleAddSubCollision()
    ensures AddSubTo([Event(1, Some(480), "", [Sub(2, Some(495), "")]), Event(3, Some(500), "", [])], 0, 4)
         == [Event(1, Some(480), "", [Sub(2, Some(495), ""), Sub(4, Some(510), "")]), Event(3, Some(515), "", [])]
  {
    var a := [Event(1, Some(480), "", [Sub(2, Some(495), "")]), Event(3, Some(500), "", [])];
    assert DefaultSubTime(a[0]) == 510;
    assert Collides(a, 0);
    assert ShiftEvent(a[1], Step) == Event(3, Some(515), "", []);
    var r := AddSubTo(a, 0, 4);
    assert r[0].subs == [Sub(2, Some(495), ""), Sub(4, Some(510), "")];
    assert r[0] == Event(1, Some(480), "", [Sub(2, Some(495), ""), Sub(4, Some(510), "")]);
    assert r[1] == Event(3, Some(515), "", []);
  }

  /** The nudge is a single fixed 15 minutes: 08:00 with a sub-item at
      08:45 and the next event at 08:30; the new sub-item lands at 09:00 and
      the next event only moves to 08:45, still before the new sub-item. */
  lemma ExampleNudgeFallsShort()
    ensures var r := AddSubTo([Event(1, Some(480), "", [Sub(2, Some(525), "")]), Event(3, Some(510), "", [])], 0, 4);
      r[1].time == Some(525) && r[0].subs[1].time == Some(540) && r[1].time.value < r[0].subs[1].time.value
  {
  }

  /** The first sub-item of an event takes the event's own time. */
  lemma ExampleFirstSubAtEventTime()
    ensures AddSubTo([Event(1, Some(480), "", [])], 0, 2)[0].subs == [Sub(2, Some(480), "")]
  {
  }

  /** A time change near midnight wraps: moving 23:30 to 23:40 carries the
      next event from 23:50 to 00:00. */
  lemma ExampleWrapPastMidnight()
    ensures ChangeEventTime([Event(1, Some(1410), "", []), Event(2, Some(1430), "", [])], 0, 1420)
         == [Event(1, Some(1420), "", []), Event(2, Some(0), "", [])]
  {
  }

  // ---------------------------------------------------------------------
  // Chronological order

  /** Every time of the event stays before midnight when moved `d` later. */
  predicate FitsDay(e: Event, d: int) {
    && EventTime(e) + d < MinutesPerDay
    && forall k :: 0 <= k < |e.subs| ==> SubTime(e, e.subs[k]) + d < MinutesPerDay
  }

  /** Adding the same amount to every element keeps a sequence sorted. */
  lemma SortedPlus(xs: seq<Minute>, ys: seq<Minute>, d: int)
    requires Sorted(xs) && |ys| == |xs|
    requires forall k :: 0 <= k < |xs| ==> ys[k] == xs[k] + d
    ensures Sorted(ys)
  {
  }

  /** A shift that stays within the day moves every time by exactly `d`
      and keeps the event's internal order. */
  lemma ShiftEventInDay(e: Event, d: nat)
    requires TimedEvent(e) && FitsDay(e, d)
    requires Sorted([EventTime(e)] + SubSlots(e))
    ensures TimedEvent(ShiftEvent(e, d))
    ensures EventTime(ShiftEvent(e, d)) == EventTime(e) + d
    ensures forall k :: 0 <= k < |e.subs| ==> ShiftEvent(e, d).subs[k].time == Some(e.subs[k].time.value + d)
    ensures Sorted([EventTime(ShiftEvent(e, d))] + SubSlots(ShiftEvent(e, d)))
  {
    var r := ShiftEvent(e, d);
    var xs := [EventTime(e)] + SubSlots(e);
    var ys := [EventTime(r)] + SubSlots(r);
    forall k | 0 <= k < |xs|
      ensures ys[k] == xs[k] + d
    {
      if k > 0 {
        assert ys[k] == SubTime(r, r.subs[k - 1]);
        assert xs[k] == SubTime(e, e.subs[k - 1]);
      }
    }
    SortedPlus(xs, ys, d);
  }

  /** Moving a tail of a chronological agenda later, within the day, keeps
      it chronological. */
  lemma ShiftFromChronological(a: Agenda, from: nat, d: nat)
    requires Chronological(a)
    requires forall j :: from <= j < |a| ==> FitsDay(a[j], d)
    ensures Chronological(ShiftFrom(a, from, d))
  {
    var r := ShiftFrom(a, from, d);
    forall j | 0 <= j < |a|
      ensures TimedEvent(r[j]) && Sorted([EventTime(r[j])] + SubSlots(r[j]))
      ensures EventTime(r[j]) == if j < from then EventTime(a[j]) else EventTime(a[j]) + d
    {
      if from <= j {
        ShiftEventInDay(a[j], d);
      }
    }
    assert Sorted(EventSlots(r)) by {
      forall i, j | 0 <= i < j < |r|
        ensures EventSlots(r)[i] <= EventSlots(r)[j]
      {
        assert EventSlots(a)[i] <= EventSlots(a)[j];
      }
    }
  }

  /** Appending an event keeps a chronological agenda chronological when the
      default time does not pass midnight: the new event comes at or after
      every time already in use. */
  lemma AddEventAtEndChronological(a: Agenda, newId: Id)
    requires Chronological(a)
    requires |a| > 0 ==> LastTimeInUse(a[|a| - 1]) + Step < MinutesPerDay
    ensures Chronological(AddEventAtEnd(a, newId))
    ensures |a| > 0 ==> NextDefaultTime(a) == LastTimeInUse(a[|a| - 1]) + Step
    ensures forall i :: 0 <= i < |a| ==> EventTime(a[i]) < NextDefaultTime(a)
  {
    var r := AddEventAtEnd(a, newId);
    var t := NextDefaultTime(a);
    if |a| > 0 {
      var last := a[|a| - 1];
      assert EventTime(last) <= LastTimeInUse(last) by {
        if |last.subs| > 0 {
          var xs := [EventTime(last)] + SubSlots(last);
          assert xs[0] <= xs[|last.subs|];
        }
      }
      forall i | 0 <= i < |a|
        ensures EventTime(a[i]) <= EventTime(last)
      {
        assert EventSlots(a)[i] <= EventSlots(a)[|a| - 1];
      }
    }
    assert EventSlots(r) == EventSlots(a) + [t];
    assert [EventTime(r[|a|])] + SubSlots(r[|a|]) == [t];
  }

  /** Adding a sub-item keeps a chronological agenda chronological when
      nothing passes midnight: the new sub-item comes last in its event,
      and a collision moves the whole tail later together. */
  lemma AddSubToChronological(a: Agenda, index: nat, newId: Id)
    requires Chronological(a) && index < |a|
    requires |a[index].subs| > 0 ==> SubSlots(a[index])[|a[index].subs| - 1] + Step < MinutesPerDay
    requires Collides(a, index) ==> forall j :: index < j < |a| ==> FitsDay(a[j], Step)
    ensures Chronological(AddSubTo(a, index, newId))
  {
    var e := a[index];
    var t := DefaultSubTime(e);
    var e' := e.(subs := e.subs + [Sub(newId, Some(t), "")]);
    var added := a[index := e'];
    assert Sorted([EventTime(e')] + SubSlots(e')) by {
      var xs := [EventTime(e)] + SubSlots(e);
      var ys := [EventTime(e')] + SubSlots(e');
      assert ys == xs + [t];
      assert xs[|xs| - 1] <= t;
    }
    assert EventSlots(added) == EventSlots(a);
    assert Chronological(added);
    if Collides(a, index) {
      ShiftFromChronological(added, index + 1, Step);
    }
  }

  /** Moving an event later keeps a chronological agenda chronological when
      nothing passes midnight. */
  lemma ChangeEventTimeLaterChronological(a: Agenda, index: nat, t: Minute)
    requires Chronological(a) && index < |a|
    requires a[index].time.value <= t
    requires forall j :: index <= j < |a| ==> FitsDay(a[j], t - a[index].time.value)
    ensures Chronological(ChangeEventTime(a, index, t))
  {
    if a[index].time.value != t {
      ShiftFromChronological(a, index, t - a[index].time.value);
    }
  }
}
