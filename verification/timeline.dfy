/** The agenda: an ordered sequence of events, each owning an ordered
    sequence of sub-items, and the shift primitive every cascading edit is
    built from. */
module Timeline {
  import opened Options
  import opened Clock
  import opened Slots

  /** Identities are opaque numbers generated by the caller. */
  type Id = int

  datatype Sub = Sub(id: Id, time: Option<Minute>, title: string)

  datatype Event = Event(id: Id, time: Option<Minute>, title: string, subs: seq<Sub>)

  type Agenda = seq<Event>

  /** `event.time || "08:00"`. */
  function EventTime(e: Event): Minute {
    e.time.GetOr(DefaultTime)
  }

  /** `sub.time || event.time || "08:00"`: a sub-item without a time sits at
      its event's time. */
  function SubTime(e: Event, s: Sub): Minute {
    s.time.GetOr(EventTime(e))
  }

  /** Every time of the event and of its sub-items is stored. */
  predicate TimedEvent(e: Event) {
    e.time.Some? && forall k :: 0 <= k < |e.subs| ==> e.subs[k].time.Some?
  }

  /** Every time in the agenda is stored. */
  predicate Timed(a: Agenda) {
    forall i :: 0 <= i < |a| ==> TimedEvent(a[i])
  }

  /** Every event of the agenda stores its own time; its sub-items may not. */
  predicate EventsTimed(a: Agenda) {
    forall i :: 0 <= i < |a| ==> a[i].time.Some?
  }

  /** `r` is `e` with (possibly) other times: same identity, title, and
      sub-items with the same identities and titles in the same order. */
  predicate SameShape(r: Event, e: Event) {
    && r.id == e.id
    && r.title == e.title
    && |r.subs| == |e.subs|
    && forall k :: 0 <= k < |e.subs| ==> r.subs[k].id == e.subs[k].id && r.subs[k].title == e.subs[k].title
  }

  function EventIds(a: Agenda): (ids: seq<Id>)
    ensures |ids| == |a|
    ensures forall i :: 0 <= i < |a| ==> ids[i] == a[i].id
  {
    seq(|a|, i requires 0 <= i < |a| => a[i].id)
  }

  function SubIds(subs: seq<Sub>): (ids: seq<Id>)
    ensures |ids| == |subs|
    ensures forall k :: 0 <= k < |subs| ==> ids[k] == subs[k].id
  {
    seq(|subs|, k requires 0 <= k < |subs| => subs[k].id)
  }

  /** The times the events occupy before a reorder: `ev.time || "08:00"`. */
  function EventSlots(a: Agenda): (ts: seq<Minute>)
    ensures |ts| == |a|
    ensures forall i :: 0 <= i < |a| ==> ts[i] == EventTime(a[i])
  {
    seq(|a|, i requires 0 <= i < |a| => EventTime(a[i]))
  }

  /** The times the sub-items of `e` occupy before a reorder:
      `s.time || event.time || "08:00"`. */
  function SubSlots(e: Event): (ts: seq<Minute>)
    ensures |ts| == |e.subs|
    ensures forall k :: 0 <= k < |e.subs| ==> ts[k] == SubTime(e, e.subs[k])
  {
    seq(|e.subs|, k requires 0 <= k < |e.subs| => SubTime(e, e.subs[k]))
  }

  /** The order the engine aims for: every time stored, the events' times
      non-decreasing along the agenda, and within each event its own time
      followed by its sub-items' times non-decreasing. */
  predicate Chronological(a: Agenda) {
    && Timed(a)
    && Sorted(EventSlots(a))
    && forall i :: 0 <= i < |a| ==> Sorted([EventTime(a[i])] + SubSlots(a[i]))
  }

  /** `shiftEventWithSubs(event, delta)`: a zero delta returns the event as
      it is; otherwise the event's time and each sub-item's time (read with
      their fallbacks) move by `delta` on the clock and are stored. */
  function ShiftEvent(e: Event, delta: int): (r: Event)
    ensures delta == 0 ==> r == e
    ensures SameShape(r, e)
    ensures delta != 0 ==> r.time == Some(Shift(EventTime(e), delta))
    ensures delta != 0 ==> forall k :: 0 <= k < |e.subs| ==>
      r.subs[k].time == Some(Shift(SubTime(e, e.subs[k]), delta))
    ensures delta != 0 ==> forall k :: 0 <= k < |e.subs| && e.subs[k].time.None? ==>
      r.subs[k].time == r.time
    ensures delta != 0 || TimedEvent(e) ==> TimedEvent(r)
  {
    if delta == 0 then e
    else
      e.(time := Some(Shift(EventTime(e), delta)),
         subs := seq(|e.subs|, k requires 0 <= k < |e.subs| =>
                       e.subs[k].(time := Some(Shift(SubTime(e, e.subs[k]), delta)))))
  }

  /** The events before `from` as they are, every later one shifted with its
      sub-items: the cascade of a time change. */
  function ShiftFrom(a: Agenda, from: int, delta: int): (r: Agenda)
    ensures |r| == |a|
    ensures forall i :: 0 <= i < |a| && i < from ==> r[i] == a[i]
    ensures forall i :: 0 <= i < |a| && from <= i ==> r[i] == ShiftEvent(a[i], delta)
  {
    seq(|a|, i requires 0 <= i < |a| => if i < from then a[i] else ShiftEvent(a[i], delta))
  }

  /** The `for (let i = from; i < copy.length; i++) copy[i] =
      shiftEventWithSubs(copy[i], delta)` loop of the program. */
  method ShiftLater(a: Agenda, from: nat, delta: int) returns (r: Agenda)
    ensures |r| == |a|
    ensures forall i :: 0 <= i < |a| && i < from ==> r[i] == a[i]
    ensures forall i :: from <= i < |a| ==> r[i] == ShiftEvent(a[i], delta)
    ensures r == ShiftFrom(a, from, delta)
  {
    r := a;
    var i := from;
    while i < |r|
      invariant |r| == |a|
      invariant from <= i
      invariant forall j :: 0 <= j < |a| && (j < from || i <= j) ==> r[j] == a[j]
      invariant forall j :: from <= j < i && j < |a| ==> r[j] == ShiftEvent(a[j], delta)
    {
      r := r[i := ShiftEvent(r[i], delta)];
      i := i + 1;
    }
  }

  // ---------------------------------------------------------------------
  // Algebra of the shift on fully timed events.

  /** Shifting back by the same amount restores a fully timed event. */
  lemma {:induction false} ShiftEventUndo(e: Event, delta: int)
    requires TimedEvent(e)
    ensures ShiftEvent(ShiftEvent(e, delta), -delta) == e
  {
    if delta != 0 {
      var r := ShiftEvent(e, delta);
      var back := ShiftEvent(r, -delta);
      ShiftUndo(e.time.value, delta);
      assert back.time == e.time;
      assert back.subs == e.subs by {
        forall k | 0 <= k < |e.subs|
          ensures back.subs[k] == e.subs[k]
        {
          ShiftUndo(e.subs[k].time.value, delta);
        }
      }
    }
  }

  /** On a fully timed event two shifts are one shift by the sum. */
  lemma {:induction false} ShiftEventTwice(e: Event, a: int, b: int)
    requires TimedEvent(e)
    ensures ShiftEvent(ShiftEvent(e, a), b) == ShiftEvent(e, a + b)
  {
    var r := ShiftEvent(ShiftEvent(e, a), b);
    var s := ShiftEvent(e, a + b);
    if a + b == 0 {
      ShiftEventUndo(e, a);
    } else if a != 0 && b != 0 {
      ShiftShift(e.time.value, a, b);
      assert r.time == s.time;
      assert r.subs == s.subs by {
        forall k | 0 <= k < |e.subs|
          ensures r.subs[k] == s.subs[k]
        {
          ShiftShift(e.subs[k].time.value, a, b);
        }
      }
    }
  }

  /** The clockwise distance of each sub-item from its event: the spacing a
      shift or a reorder of the event is meant to keep. */
  function Offsets(e: Event): (os: seq<int>)
    ensures |os| == |e.subs|
    ensures forall k :: 0 <= k < |e.subs| ==> os[k] == (SubTime(e, e.subs[k]) - EventTime(e)) % MinutesPerDay
  {
    seq(|e.subs|, k requires 0 <= k < |e.subs| => (SubTime(e, e.subs[k]) - EventTime(e)) % MinutesPerDay)
  }

  /** A shift keeps every sub-item's clockwise distance from its event,
      times read with their fallbacks, so also for missing times. */
  lemma {:induction false} ShiftEventKeepsOffsets(e: Event, delta: int)
    ensures Offsets(ShiftEvent(e, delta)) == Offsets(e)
  {
    if delta != 0 {
      var r := ShiftEvent(e, delta);
      forall k | 0 <= k < |e.subs|
        ensures Offsets(r)[k] == Offsets(e)[k]
      {
        ShiftKeepsDistance(SubTime(e, e.subs[k]), EventTime(e), delta);
      }
    }
  }
}
