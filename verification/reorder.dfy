/** Drag-and-drop reorders. A reorder moves one item to the slot of another
    (remove, then insert), and then hands the original times, sorted
    chronologically, back out positionally: the set of time slots stays,
    the order of the items changes. */
module Reorder {
  import opened Options
  import opened Clock
  import opened Sequences
  import opened Slots
  import opened Timeline

  /** JavaScript truthiness of an id: neither null/undefined nor 0. */
  predicate Truthy(id: Option<Id>) {
    id.Some? && id.value != 0
  }

  /** `prev.findIndex((e) => e.id === id)`. */
  function IndexOfEvent(a: Agenda, id: Id): (r: Option<nat>)
    ensures r.Some? ==> r.value < |a| && a[r.value].id == id
    ensures r.Some? ==> forall j :: 0 <= j < r.value ==> a[j].id != id
    ensures r.None? <==> forall i :: 0 <= i < |a| ==> a[i].id != id
  {
    FirstIndex(EventIds(a), id)
  }

  /** `subs.findIndex((s) => s.id === id)`. */
  function IndexOfSub(subs: seq<Sub>, id: Id): (r: Option<nat>)
    ensures r.Some? ==> r.value < |subs| && subs[r.value].id == id
    ensures r.Some? ==> forall j :: 0 <= j < r.value ==> subs[j].id != id
    ensures r.None? <==> forall k :: 0 <= k < |subs| ==> subs[k].id != id
  {
    FirstIndex(SubIds(subs), id)
  }

  // ---------------------------------------------------------------------
  // Events

  /** The guards of `moveEvent(fromId, toId)`: both ids given, different,
      and present; the result is the pair of positions, None for a no-op. */
  function ResolveEventMove(a: Agenda, fromId: Option<Id>, toId: Option<Id>): (r: Option<(nat, nat)>)
    ensures r.Some? <==>
      && fromId.Some? && toId.Some? && fromId != toId
      && (exists i :: 0 <= i < |a| && a[i].id == fromId.value)
      && (exists i :: 0 <= i < |a| && a[i].id == toId.value)
    ensures r.Some? ==> r.value.0 < |a| && a[r.value.0].id == fromId.value
    ensures r.Some? ==> r.value.1 < |a| && a[r.value.1].id == toId.value
    ensures r.Some? ==> r.value == (IndexOfEvent(a, fromId.value).value, IndexOfEvent(a, toId.value).value)
    ensures r.Some? ==> forall j :: 0 <= j < r.value.0 ==> a[j].id != fromId.value
    ensures r.Some? ==> forall j :: 0 <= j < r.value.1 ==> a[j].id != toId.value
    ensures r.Some? ==> r.value.0 != r.value.1
  {
    if fromId.None? || toId.None? || fromId == toId then None
    else
      match (IndexOfEvent(a, fromId.value), IndexOfEvent(a, toId.value))
      case (Some(f), Some(t)) => Some((f, t))
      case _ => None
  }

  /** Give event `e` the slot `slot`: shift it with its sub-items by the
      difference; an event with no time reads as already in the slot. */
  function Reslot(e: Event, slot: Minute): (r: Event)
    ensures SameShape(r, e)
    ensures e.time.Some? ==> r.time == Some(slot)
    ensures e.time.None? ==> r == e
    ensures TimedEvent(e) ==> TimedEvent(r)
    ensures Offsets(r) == Offsets(e)
  {
    ShiftEventKeepsOffsets(e, Delta(slot, e.time.GetOr(slot)));
    ShiftEvent(e, Delta(slot, e.time.GetOr(slot)))
  }

  /** The events of `moved` in their order, the k-th given the k-th of
      `slots`. */
  function ReslotAll(moved: Agenda, slots: seq<Minute>): (r: Agenda)
    requires |slots| == |moved|
    ensures |r| == |moved|
    ensures forall i :: 0 <= i < |moved| ==> SameShape(r[i], moved[i])
    ensures forall i :: 0 <= i < |moved| && moved[i].time.None? ==> r[i] == moved[i]
    ensures Timed(moved) ==> Timed(r)
    ensures EventsTimed(moved) ==> EventSlots(r) == slots
    ensures forall i :: 0 <= i < |moved| ==> Offsets(r[i]) == Offsets(moved[i])
  {
    seq(|moved|, i requires 0 <= i < |moved| => Reslot(moved[i], slots[i]))
  }

  /** Moving an event keeps every event that stores a time, and every event
      whose sub-items all store one too, so a timed agenda stays timed. */
  lemma MoveTimed(a: Agenda, f: nat, t: nat)
    requires f < |a| && t < |a|
    ensures EventsTimed(a) ==> EventsTimed(Move(a, f, t))
    ensures Timed(a) ==> Timed(Move(a, f, t))
  {
    var moved := Move(a, f, t);
    MovePermutes(a, f, t);
    forall i | 0 <= i < |moved|
      ensures moved[i] in a
    {
      assert moved[i] in multiset(a);
    }
  }

  /** `moveEvent(fromId, toId)`: no-op unless both ids resolve; otherwise
      the events in spliced order, the k-th taking the k-th earliest of the
      original times, each shifted together with its sub-items. */
  function MoveEvent(a: Agenda, fromId: Option<Id>, toId: Option<Id>): (r: Agenda)
    ensures ResolveEventMove(a, fromId, toId).None? ==> r == a
    ensures |r| == |a|
    ensures ResolveEventMove(a, fromId, toId).Some? ==>
      var (f, t) := ResolveEventMove(a, fromId, toId).value;
      && r[t].id == fromId.value
      && (forall i :: 0 <= i < |a| ==> SameShape(r[i], Move(a, f, t)[i]))
      && (forall i :: 0 <= i < |a| && Move(a, f, t)[i].time.None? ==> r[i] == Move(a, f, t)[i])
    ensures Timed(a) ==> Timed(r)
    ensures EventsTimed(a) && ResolveEventMove(a, fromId, toId).Some? ==>
      && Sorted(EventSlots(r))
      && multiset(EventSlots(r)) == multiset(EventSlots(a))
    ensures ResolveEventMove(a, fromId, toId).Some? ==>
      var (f, t) := ResolveEventMove(a, fromId, toId).value;
      forall i :: 0 <= i < |a| ==> Offsets(r[i]) == Offsets(Move(a, f, t)[i])
  {
    match ResolveEventMove(a, fromId, toId)
    case None => a
    case Some((f, t)) =>
      var slots := Sort(EventSlots(a));
      MoveTimed(a, f, t);
      ReslotAll(Move(a, f, t), slots)
  }

  // ---------------------------------------------------------------------
  // Sub-items

  /** The guards of `moveSub(eventId, fromSubId, toSubId)`: all three ids
      truthy, the sub-item ids different, the event present with at least
      two sub-items, both sub-items present in it. The result is the event's
      position and the two sub-item positions, None for a no-op. */
  function ResolveSubMove(a: Agenda, evId: Option<Id>, fromSub: Option<Id>, toSub: Option<Id>)
    : (r: Option<(nat, nat, nat)>)
    ensures r.Some? ==>
      && Truthy(evId) && Truthy(fromSub) && Truthy(toSub) && fromSub != toSub
      && r.value.0 < |a| && a[r.value.0].id == evId.value
      && (forall i :: 0 <= i < r.value.0 ==> a[i].id != evId.value)
      && |a[r.value.0].subs| >= 2
      && r.value.1 < |a[r.value.0].subs| && a[r.value.0].subs[r.value.1].id == fromSub.value
      && r.value.2 < |a[r.value.0].subs| && a[r.value.0].subs[r.value.2].id == toSub.value
      && (forall k :: 0 <= k < r.value.1 ==> a[r.value.0].subs[k].id != fromSub.value)
      && (forall k :: 0 <= k < r.value.2 ==> a[r.value.0].subs[k].id != toSub.value)
    ensures r.None? <==>
      || !Truthy(evId) || !Truthy(fromSub) || !Truthy(toSub) || fromSub == toSub
      || IndexOfEvent(a, evId.value).None?
      || |a[IndexOfEvent(a, evId.value).value].subs| < 2
      || IndexOfSub(a[IndexOfEvent(a, evId.value).value].subs, fromSub.value).None?
      || IndexOfSub(a[IndexOfEvent(a, evId.value).value].subs, toSub.value).None?
  {
    if !Truthy(evId) || !Truthy(fromSub) || !Truthy(toSub) || fromSub == toSub then None
    else
      match IndexOfEvent(a, evId.value)
      case None => None
      case Some(e) =>
        assert forall i :: 0 <= i < e ==> a[i].id != evId.value by {
          assert forall i :: 0 <= i < e ==> EventIds(a)[i] != evId.value;
        }
        var subs := a[e].subs;
        if |subs| < 2 then None
        else
          match (IndexOfSub(subs, fromSub.value), IndexOfSub(subs, toSub.value))
          case (Some(f), Some(t)) => Some((e, f, t))
          case _ => None
  }

  /** The sub-items of `subs` in their order, the k-th stored at the k-th
      of `slots`. */
  function StoreSlots(subs: seq<Sub>, slots: seq<Minute>): (r: seq<Sub>)
    requires |slots| == |subs|
    ensures |r| == |subs|
    ensures forall k :: 0 <= k < |subs| ==> r[k] == subs[k].(time := Some(slots[k]))
  {
    seq(|subs|, k requires 0 <= k < |subs| => subs[k].(time := Some(slots[k])))
  }

  /** Sub-items that all store a time occupy exactly those times. */
  lemma SubSlotsStored(e: Event, slots: seq<Minute>)
    requires |slots| == |e.subs|
    requires forall k :: 0 <= k < |e.subs| ==> e.subs[k].time == Some(slots[k])
    ensures SubSlots(e) == slots
  {
  }

  /** The event with its sub-items in spliced order, the k-th stored at the
      k-th earliest of the original sub-item times; the event's own fields
      stay. */
  function ReorderSubs(ev: Event, f: nat, t: nat): (r: Event)
    requires f < |ev.subs| && t < |ev.subs|
    ensures r.id == ev.id && r.time == ev.time && r.title == ev.title
    ensures |r.subs| == |ev.subs|
    ensures forall k :: 0 <= k < |ev.subs| ==>
      r.subs[k].id == Move(ev.subs, f, t)[k].id && r.subs[k].title == Move(ev.subs, f, t)[k].title
    ensures forall k :: 0 <= k < |ev.subs| ==> r.subs[k].time.Some?
    ensures Sorted(SubSlots(r))
    ensures multiset(SubSlots(r)) == multiset(SubSlots(ev))
  {
    var slots := Sort(SubSlots(ev));
    var subs := StoreSlots(Move(ev.subs, f, t), slots);
    SubSlotsStored(ev.(subs := subs), slots);
    ev.(subs := subs)
  }

  /** `moveSub(eventId, fromSubId, toSubId)`: no-op unless the ids resolve;
      otherwise only the one event changes, and only in its sub-items. */
  function MoveSub(a: Agenda, evId: Option<Id>, fromSub: Option<Id>, toSub: Option<Id>): (r: Agenda)
    ensures ResolveSubMove(a, evId, fromSub, toSub).None? ==> r == a
    ensures |r| == |a|
    ensures ResolveSubMove(a, evId, fromSub, toSub).Some? ==>
      var (e, f, t) := ResolveSubMove(a, evId, fromSub, toSub).value;
      r == a[e := ReorderSubs(a[e], f, t)]
  {
    match ResolveSubMove(a, evId, fromSub, toSub)
    case None => a
    case Some((e, f, t)) => a[e := ReorderSubs(a[e], f, t)]
  }

  /** A sub-item reorder keeps a fully timed agenda fully timed. */
  lemma MoveSubTimed(a: Agenda, evId: Option<Id>, fromSub: Option<Id>, toSub: Option<Id>)
    requires Timed(a)
    ensures Timed(MoveSub(a, evId, fromSub, toSub))
  {
    var r := MoveSub(a, evId, fromSub, toSub);
    if ResolveSubMove(a, evId, fromSub, toSub).Some? {
      var (e, f, t) := ResolveSubMove(a, evId, fromSub, toSub).value;
      assert TimedEvent(r[e]);
    }
  }
}
