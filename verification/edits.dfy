/** The positional edits of the agenda: appending events and sub-items with
    their default times, editing times with the forward cascade, editing
    other fields, and deleting by position. Each is a pure function from the
    old agenda to the new one. */
module Edits {
  import opened Options
  import opened Clock
  import opened Sequences
  import opened Timeline

  /** The fields a partial update may carry; None leaves a field as it is. */
  datatype Patch = Patch(time: Option<Minute>, title: Option<string>)

  const NoChange: Patch := Patch(None, None)

  // ---------------------------------------------------------------------
  // Default times

  /** The time the last event of the agenda ends in use: its last sub-item's
      time when that sub-item has one, else the event's own time. */
  function LastTimeInUse(e: Event): Minute {
    if |e.subs| > 0 && e.subs[|e.subs| - 1].time.Some? then e.subs[|e.subs| - 1].time.value
    else EventTime(e)
  }

  /** `nextDefaultTime(list)`: 08:00 for an empty agenda, else 15 minutes
      after the last time in use. */
  function NextDefaultTime(a: Agenda): (r: Minute)
    ensures |a| == 0 ==> r == DefaultTime
    ensures |a| > 0 ==> (r - LastTimeInUse(a[|a| - 1])) % MinutesPerDay == Step
  {
    if |a| == 0 then DefaultTime else Shift(LastTimeInUse(a[|a| - 1]), Step)
  }

  /** `defaultSubTime(event)`: the event's own time for the first sub-item
      (with no 15-minute step), else 15 minutes after the last sub-item. */
  function DefaultSubTime(e: Event): (r: Minute)
    ensures |e.subs| == 0 ==> r == EventTime(e)
    ensures |e.subs| > 0 ==> (r - SubTime(e, e.subs[|e.subs| - 1])) % MinutesPerDay == Step
  {
    if |e.subs| == 0 then EventTime(e) else Shift(SubTime(e, e.subs[|e.subs| - 1]), Step)
  }

  // ---------------------------------------------------------------------
  // Events

  /** `addEventAtEnd`: one new, empty event at the default time after the
      last one. */
  function AddEventAtEnd(a: Agenda, newId: Id): (r: Agenda)
    ensures |r| == |a| + 1 && r[..|a|] == a
    ensures r[|a|].id == newId && r[|a|].title == "" && r[|a|].subs == []
    ensures r[|a|].time == Some(NextDefaultTime(a))
    ensures EventIds(r) == EventIds(a) + [newId]
    ensures Timed(a) ==> Timed(r)
  {
    var r := a + [Event(newId, Some(NextDefaultTime(a)), "", [])];
    assert EventIds(r) == EventIds(a) + [newId];
    r
  }

  function ApplyEventPatch(e: Event, p: Patch): (r: Event)
    ensures r.id == e.id && r.subs == e.subs
    ensures r.title == p.title.GetOr(e.title)
    ensures r.time == if p.time.Some? then p.time else e.time
  {
    Event(e.id, if p.time.Some? then p.time else e.time, p.title.GetOr(e.title), e.subs)
  }

  /** `updateEvent(index, partial)`: overwrite the given fields of one event,
      with no cascade. */
  function UpdateEvent(a: Agenda, index: nat, p: Patch): (r: Agenda)
    requires index < |a|
    ensures |r| == |a|
    ensures forall i :: 0 <= i < |a| && i != index ==> r[i] == a[i]
    ensures r[index].id == a[index].id && r[index].subs == a[index].subs
    ensures r[index].title == p.title.GetOr(a[index].title)
    ensures r[index].time == if p.time.Some? then p.time else a[index].time
    ensures EventIds(r) == EventIds(a)
    ensures Timed(a) ==> Timed(r)
  {
    a[index := ApplyEventPatch(a[index], p)]
  }

  /** `changeEventTime(index, t)`: a missing event or an unchanged time
      leaves the agenda as it is; otherwise the event and every later event
      move, with their sub-items, by the signed difference, so that the
      event lands on `t`. An event whose time is missing (a cleared input,
      stored as "") parses to an Invalid Date; the difference is NaN, and
      every shift by NaN returns its event as it is. */
  function ChangeEventTime(a: Agenda, index: int, t: Minute): (r: Agenda)
    ensures !(0 <= index < |a|) ==> r == a
    ensures 0 <= index < |a| && a[index].time.None? ==> r == a
    ensures 0 <= index < |a| && a[index].time == Some(t) ==> r == a
    ensures |r| == |a|
    ensures 0 <= index < |a| && a[index].time.Some? ==> r[index].time == Some(t)
    ensures forall i :: 0 <= i < |a| && i < index ==> r[i] == a[i]
    ensures 0 <= index < |a| && a[index].time.Some? ==> forall i :: index <= i < |a| ==>
      r[i] == ShiftEvent(a[i], Delta(t, a[index].time.value))
    ensures EventIds(r) == EventIds(a)
    ensures Timed(a) ==> Timed(r)
  {
    if !(0 <= index < |a|) || a[index].time.None? then a
    else if a[index].time == Some(t) then a
    else ShiftFrom(a, index, Delta(t, a[index].time.value))
  }

  /** `removeEvent(index)`: drop the event at `index`, re-timing nothing; an
      index outside the agenda drops nothing. */
  function RemoveEvent(a: Agenda, index: int): (r: Agenda)
    ensures 0 <= index < |a| ==> |r| == |a| - 1
    ensures 0 <= index < |a| ==> forall i :: 0 <= i < index ==> r[i] == a[i]
    ensures 0 <= index < |a| ==> forall i :: index <= i < |r| ==> r[i] == a[i + 1]
    ensures !(0 <= index < |a|) ==> r == a
    ensures Timed(a) ==> Timed(r)
  {
    Without(a, index)
  }

  // ---------------------------------------------------------------------
  // Sub-items

  /** The collision test of `addSubTo`: a next event exists and the new
      sub-item's default time reaches or passes its time. */
  predicate Collides(a: Agenda, index: nat)
    requires index < |a|
  {
    index + 1 < |a| && a[index + 1].time.Some? && DefaultSubTime(a[index]) >= a[index + 1].time.value
  }

  /** `addSubTo(index)`: append one new sub-item at the event's default
      sub-item time. When a next event exists and the new sub-item reaches
      or passes its time, that event and every later one move forward once
      by a fixed 15 minutes. The program indexes the event without a check.
      A next event without a time parses to an Invalid Date, and the
      comparison with it is false: no collision. */
  function AddSubTo(a: Agenda, index: nat, newId: Id): (r: Agenda)
    requires index < |a|
    ensures |r| == |a|
    ensures forall i :: 0 <= i < index ==> r[i] == a[i]
    ensures r[index].id == a[index].id && r[index].title == a[index].title
    ensures r[index].time == a[index].time
    ensures r[index].subs == a[index].subs + [Sub(newId, Some(DefaultSubTime(a[index])), "")]
    ensures Collides(a, index) ==> forall i :: index < i < |a| ==> r[i] == ShiftEvent(a[i], Step)
    ensures !Collides(a, index) ==> forall i :: index < i < |a| ==> r[i] == a[i]
    ensures EventIds(r) == EventIds(a)
    ensures Timed(a) ==> Timed(r)
  {
    var e := a[index];
    var t := DefaultSubTime(e);
    var added := a[index := e.(subs := e.subs + [Sub(newId, Some(t), "")])];
    if Collides(a, index) then ShiftFrom(added, index + 1, Step)
    else added
  }

  function ApplySubPatch(s: Sub, p: Patch): (r: Sub)
    ensures r.id == s.id
    ensures r.title == p.title.GetOr(s.title)
    ensures r.time == if p.time.Some? then p.time else s.time
  {
    Sub(s.id, if p.time.Some? then p.time else s.time, p.title.GetOr(s.title))
  }

  /** `updateSub(evIndex, subIndex, partial)`: overwrite the given fields of
      one sub-item, with no cascade. */
  function UpdateSub(a: Agenda, ev: nat, sub: nat, p: Patch): (r: Agenda)
    requires ev < |a| && sub < |a[ev].subs|
    ensures |r| == |a|
    ensures forall i :: 0 <= i < |a| && i != ev ==> r[i] == a[i]
    ensures r[ev].id == a[ev].id && r[ev].time == a[ev].time && r[ev].title == a[ev].title
    ensures |r[ev].subs| == |a[ev].subs|
    ensures forall k :: 0 <= k < |a[ev].subs| && k != sub ==> r[ev].subs[k] == a[ev].subs[k]
    ensures r[ev].subs[sub].id == a[ev].subs[sub].id
    ensures r[ev].subs[sub].title == p.title.GetOr(a[ev].subs[sub].title)
    ensures r[ev].subs[sub].time == if p.time.Some? then p.time else a[ev].subs[sub].time
    ensures EventIds(r) == EventIds(a)
    ensures Timed(a) ==> Timed(r)
  {
    var e := a[ev];
    a[ev := e.(subs := e.subs[sub := ApplySubPatch(e.subs[sub], p)])]
  }

  /** The sub-items of `e` after sub-item `sub` moves to `t`: that one takes
      `t` as it is, every later one moves by the signed difference, reading a
      missing time as `t`. */
  function RetimeSubs(e: Event, sub: nat, t: Minute, delta: int): (subs: seq<Sub>)
    requires sub < |e.subs|
    ensures |subs| == |e.subs|
    ensures forall k :: 0 <= k < sub ==> subs[k] == e.subs[k]
    ensures subs[sub] == e.subs[sub].(time := Some(t))
    ensures forall k :: sub < k < |e.subs| ==>
      subs[k] == e.subs[k].(time := Some(Shift(e.subs[k].time.GetOr(t), delta)))
  {
    seq(|e.subs|, k requires 0 <= k < |e.subs| =>
      if k < sub then e.subs[k]
      else if k == sub then e.subs[k].(time := Some(t))
      else e.subs[k].(time := Some(Shift(e.subs[k].time.GetOr(t), delta))))
  }

  /** `changeSubTime(evIndex, subIndex, t)`: an unchanged time leaves the
      agenda as it is; otherwise the sub-item takes `t`, the later sub-items
      of the same event and every later event (with its sub-items) move by
      the signed difference. Earlier sub-items, the event's own time and
      earlier events stay. The program indexes both without a check. A
      sub-item whose time is missing (a cleared input, stored as "") gives a
      NaN difference: the sub-item still takes `t` and later events stay,
      but printing a later sub-item's shifted time throws, so a missing time
      is accepted only on the last sub-item. */
  function ChangeSubTime(a: Agenda, ev: nat, sub: nat, t: Minute): (r: Agenda)
    requires ev < |a| && sub < |a[ev].subs|
    requires a[ev].subs[sub].time.Some? || sub == |a[ev].subs| - 1
    ensures a[ev].subs[sub].time == Some(t) ==> r == a
    ensures |r| == |a|
    ensures forall i :: 0 <= i < ev ==> r[i] == a[i]
    ensures SameShape(r[ev], a[ev]) && r[ev].time == a[ev].time
    ensures forall k :: 0 <= k < sub ==> r[ev].subs[k] == a[ev].subs[k]
    ensures r[ev].subs[sub].time == Some(t)
    ensures a[ev].subs[sub].time.Some? ==> forall k :: sub < k < |a[ev].subs| && a[ev].subs[k].time.Some? ==>
      r[ev].subs[k].time == Some(Shift(a[ev].subs[k].time.value, Delta(t, a[ev].subs[sub].time.value)))
    ensures a[ev].subs[sub].time.Some? && a[ev].subs[sub].time != Some(t) ==>
      forall k :: sub < k < |a[ev].subs| && a[ev].subs[k].time.None? ==>
        r[ev].subs[k].time == Some(Shift(t, Delta(t, a[ev].subs[sub].time.value)))
    ensures a[ev].subs[sub].time.Some? ==>
      forall i :: ev < i < |a| ==> r[i] == ShiftEvent(a[i], Delta(t, a[ev].subs[sub].time.value))
    ensures a[ev].subs[sub].time.None? ==> forall i :: ev < i < |a| ==> r[i] == a[i]
    ensures EventIds(r) == EventIds(a)
    ensures Timed(a) ==> Timed(r)
  {
    var e := a[ev];
    match e.subs[sub].time
    case None => a[ev := e.(subs := e.subs[sub := e.subs[sub].(time := Some(t))])]
    case Some(was) =>
      if was == t then a
      else
        var delta := Delta(t, was);
        ShiftFrom(a[ev := e.(subs := RetimeSubs(e, sub, t, delta))], ev + 1, delta)
  }

  /** `removeSub(evIndex, subIndex)`: drop one sub-item, re-timing nothing;
      a sub-item index outside the event drops nothing. The program indexes
      the event without a check. */
  function RemoveSub(a: Agenda, ev: nat, sub: int): (r: Agenda)
    requires ev < |a|
    ensures |r| == |a|
    ensures forall i :: 0 <= i < |a| && i != ev ==> r[i] == a[i]
    ensures r[ev].id == a[ev].id && r[ev].time == a[ev].time && r[ev].title == a[ev].title
    ensures 0 <= sub < |a[ev].subs| ==> r[ev].subs == a[ev].subs[..sub] + a[ev].subs[sub + 1..]
    ensures !(0 <= sub < |a[ev].subs|) ==> r == a
    ensures EventIds(r) == EventIds(a)
    ensures Timed(a) ==> Timed(r)
  {
    var e := a[ev];
    a[ev := e.(subs := Without(e.subs, sub))]
  }
}
