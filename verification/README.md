# Agenda timeline engine

A Dafny model of the time-keeping core of a small agenda editor. An agenda is an
ordered list of events. Each event has an id, a time of day, a title and an ordered
list of sub-items, and each sub-item has an id, a time and a title. The editor
changes the agenda only through a fixed set of list transformations. Each takes the
old agenda and returns the new one:

- append an event or a sub-item at a default time;
- change an event's or a sub-item's time, and let the change ripple forward;
- edit other fields, and delete by position;
- reorder events, or the sub-items of one event, by drag-and-drop. A reorder keeps
  the same time slots and hands them out again in chronological order.

The model writes each transformation as a pure Dafny function over an immutable
agenda value. It proves what shifts and by how much, what stays untouched, that a
reorder is a permutation with sorted and preserved time slots, the no-op guards,
and round trips between operations.

Modules, in dependency order:

| file | module | contents |
|---|---|---|
| options.dfy | `Options` | optional values, used for JavaScript's `undefined`/`null`/`""` |
| clock.dfy | `Clock` | minute-of-day times, the wrapping shift, the `HH:mm` spelling |
| sequences.dfy | `Sequences` | `filter` by position, `findIndex`, the splice move |
| slots.dfy | `Slots` | sorting time slots; a sorted permutation is unique |
| timeline.dfy | `Timeline` | events, sub-items, agendas, and `shiftEventWithSubs` |
| edits.dfy | `Edits` | appends, time changes, field updates, deletions |
| reorder.dfy | `Reorder` | `moveEvent` and `moveSub` |
| properties.dfy | `Properties` | round trips, worked examples, chronological order |

**Time.** A time is a minute of the day in `[0, 1440)`. The program parses
`"HH:mm"` onto today's date, adds minutes, and prints `"HH:mm"` again, so the clock
wraps past midnight in both directions. The model writes a shift as
`(t + d) % 1440`. Dafny's `%` is Euclidean, which matches the wrap for negative
`d`. The difference of two same-day parses is `new - old`. `Clock.FormatParse` and
`Clock.ParseFormat` show that a time and its `HH:mm` spelling determine each other.
So the program's `===` on time strings is equality of times.

**Missing times.** Stored times are `Option<Minute>`, so the program's fallbacks
are part of the model:

- `event.time || "08:00"` is `EventTime`;
- `sub.time || event.time || "08:00"` is `SubTime`;
- `changeSubTime` lets a later sub-item that has no time fall back to the new time.

The program hands a missing time straight to the date parser in three places. A
missing time the user interface stores is `""` (a cleared time input), which parses
to an Invalid Date, and the model follows what happens then:

- the edited event in `changeEventTime`: the delta is NaN, every shift by NaN
  returns its event, so the agenda stays as it is;
- the next event in `addSubTo`: the comparison with an Invalid Date is false, so
  there is no collision;
- the edited sub-item in `changeSubTime`: it takes the new time and later events
  stay, but printing a later sub-item's shifted time throws. The model accepts a
  missing time only on the last sub-item.

**Ids.** Ids are opaque numbers, written `int`. Fresh ids are parameters. The drag
handlers pass ids that may be null, so those arguments are `Option<Id>`. `moveSub`
tests its ids for JavaScript falsiness (null, undefined or 0), while `moveEvent`
tests only for null. The model keeps this difference (`Reorder.Truthy`).

**Default times.** An appended event comes 15 minutes after the last time in use:
the last sub-item's time when it has one, else the event's own time
(src/App.js:44-62). An event's first sub-item takes the event's own time, with no
15-minute step (src/App.js:65-67). Later ones come 15 minutes after the last
sub-item (src/App.js:68-71).

## Model

| member | source | states |
|---|---|---|
| Clock.Shift | src/App.js:31-35 | adding minutes and printing `HH:mm` is plain addition inside the day and wraps by exactly one day past midnight in either direction |
| Clock.Delta | src/App.js:186-190 | the minute difference of two same-day times lies strictly within one day, is zero exactly for equal times, is negative exactly when the newer time is earlier in the day, and shifting the older time by it gives the newer; together these make it `new - old` |
| Clock.Parse | src/App.js:26 | a string is accepted only as two digits, a colon and two digits, and the hour and minute of the result are those digit pairs; an hour past 23 or a minute past 59 is an Invalid Date |
| Clock.ShiftShift | src/App.js:31-35 | two successive shifts are one shift by the sum, wrap included |
| Clock.ShiftUndo | src/App.js:31-35 | shifting back by the same amount restores the time |
| Clock.ShiftKeepsDistance | src/App.js:31-35 | a common shift keeps the clockwise distance between two times |
| Clock.Format | src/App.js:27 | a time prints as two digits, a colon, two digits |
| Clock.ParseFormat | src/App.js:26-27 | parsing a printed time gives back the time |
| Clock.FormatParse | src/App.js:26-27 | printing a parsed time gives back the exact string, so each time has one spelling |
| Clock.FormatInjective | src/App.js:119 | two time strings are `===` exactly when they denote the same time |
| Sequences.Without | src/App.js:218 | filtering out one position drops exactly that element and keeps the order; an index outside the array drops nothing |
| Sequences.FirstIndex | src/App.js:235-236 | `findIndex` returns the first position holding the id, and none exactly when the id is absent |
| Sequences.Move | src/App.js:249-250 | the remove-then-insert splice keeps the length and puts the moved element at the target position |
| Sequences.MovePermutes | src/App.js:249-250 | the splice move neither adds nor loses an element (multiset preserved) |
| Sequences.MoveRest | src/App.js:249-250 | the other elements keep their relative order through the move |
| Sequences.MoveBack | src/App.js:249-250 | dragging the element back from the target position to its old one restores the sequence |
| Slots.Sort | src/App.js:243-245 | the sorted times are in non-decreasing order and are a permutation of the original times |
| Slots.SortedUnique | src/App.js:243-245 | two sorted arrangements of the same times are equal, so any correct sort gives the slots the model uses |
| Slots.SortSorted | src/App.js:290-292 | times already in order are handed out unchanged |
| Timeline.ShiftEvent | src/App.js:29-42 | a zero delta returns the event itself. Otherwise the event's time and every sub-item's time (read with their fallbacks) move by the delta on the clock and are stored. A sub-item without a time lands on the event's new time. Ids, titles and the sub-item count stay |
| Timeline.ShiftFrom | src/App.js:121-123 | the cascade keeps the length, keeps every event before the start index and shifts every event from it on with its sub-items; the same cascade as the loops at :154-156 and :207-209 |
| Timeline.ShiftLater | src/App.js:154-156 | the in-place loop leaves the events before the start index alone and shifts every event from it on, which is exactly the cascade `ShiftFrom` the edits use |
| Timeline.ShiftEventUndo | src/App.js:29-42 | on a fully timed event, shifting by `-d` undoes a shift by `d` |
| Timeline.ShiftEventTwice | src/App.js:29-42 | on a fully timed event, two shifts compose into one by the sum |
| Timeline.ShiftEventKeepsOffsets | src/App.js:37-40 | shifting an event with its sub-items keeps each sub-item's clockwise distance from the event, times read with their fallbacks, for every event |
| Edits.NextDefaultTime | src/App.js:44-62 | an empty agenda starts at 08:00; otherwise the default is 15 minutes, clockwise, after the last event's last time in use: its last sub-item's stored time, else its own time |
| Edits.DefaultSubTime | src/App.js:64-72 | an event without sub-items gives its own time, with no step; otherwise the default is 15 minutes, clockwise, after the last sub-item's time, read with its fallback |
| Edits.AddEventAtEnd | src/App.js:95-105 | exactly one event is appended, with the fresh id, an empty title, no sub-items and the default next time. The rest is untouched |
| Edits.UpdateEvent | src/App.js:107-113 | only the targeted event changes, and only in the fields the patch carries; its id and sub-items stay |
| Edits.ChangeEventTime | src/App.js:115-126 | an index outside the agenda, an event without a time or an unchanged time leaves the agenda as it is. Otherwise the length is kept, earlier events stay identical, every event from the index on shifts with its sub-items by `t - old`, and the edited event lands on `t` |
| Edits.RemoveEvent | src/App.js:217-219 | exactly the event at the index is dropped and nothing is re-timed; an index outside the agenda drops nothing |
| Edits.AddSubTo | src/App.js:128-162 | the event gains exactly one sub-item, appended last, at its default sub-item time; its own time and existing sub-items stay and earlier events stay. On a collision every later event shifts by exactly +15, once; otherwise, including when the next event has no time, later events stay |
| Edits.UpdateSub | src/App.js:165-174 | only the targeted sub-item changes, and only in the fields the patch carries |
| Edits.RetimeSubs | src/App.js:192-202 | the edited sub-item takes the new time as given, earlier ones stay, and later ones move by the delta, a missing time read as the new time |
| Edits.ChangeSubTime | src/App.js:176-213 | an unchanged time is a no-op. Otherwise the sub-item gets exactly `t`, and later sub-items of the event and every later event shift by `t - old`. Earlier sub-items, the event's own fields and earlier events stay. A later sub-item without a time lands at `t` plus the delta. A last sub-item without a time takes `t` and nothing else changes |
| Edits.RemoveSub | src/App.js:221-229 | exactly the sub-item at the index is dropped and nothing is re-timed; an index outside the event changes nothing |
| Reorder.IndexOfEvent | src/App.js:235-236 | the position found is the first one holding the id, and none is found exactly when no event has it |
| Reorder.IndexOfSub | src/App.js:280-281 | the position found is the first one holding the sub-item id, and none is found exactly when no sub-item has it |
| Reorder.ResolveEventMove | src/App.js:233-237 | a move goes ahead exactly when both ids are given, differ, and name events; the two positions are the first holding those ids and differ |
| Reorder.Reslot | src/App.js:254-262 | an event with a time lands exactly on its new slot; an event without a time is left as it is; either way every sub-item keeps its clockwise distance from the event |
| Reorder.ReslotAll | src/App.js:254-262 | every event keeps its shape and its sub-items' spacing, an event without a time stays as it is, and when every event has a time the k-th event lands on the k-th slot |
| Reorder.MoveEvent | src/App.js:231-266 | a failed guard is a no-op. Otherwise the events are the splice permutation, events without a time are left untouched, and every event keeps its sub-items' spacing. When every event has a time, the event times are non-decreasing and their multiset is preserved |
| Reorder.ResolveSubMove | src/App.js:270-282 | a sub-item move goes ahead exactly when all ids are truthy, the sub-item ids differ, the event exists with at least two sub-items, and both sub-items are in it; the event and the two sub-items are found at their first positions |
| Reorder.ReorderSubs | src/App.js:284-304 | the event's own fields stay and its sub-items are the splice permutation, every one with a stored time. The times are non-decreasing and are the same multiset as the original times with fallbacks |
| Reorder.MoveSub | src/App.js:268-307 | a failed guard is a no-op; otherwise only the one event changes, by reordering its sub-items |
| Reorder.MoveTimed | src/App.js:247-250 | when every event has a time, every event still has one after the splice; a fully timed agenda stays fully timed |
| Reorder.MoveSubTimed | src/App.js:299-305 | a sub-item reorder keeps a fully timed agenda fully timed |
| Properties.ChangeEventTimeUndo | src/App.js:115-126 | on a fully timed agenda, setting the event back to its old time restores the whole agenda |
| Properties.ChangeSubTimeUndo | src/App.js:176-213 | on a fully timed agenda, setting the sub-item back to its old time restores the whole agenda |
| Properties.RemoveEventUndoesAdd | src/App.js:217-219 | deleting the event just appended restores the agenda |
| Properties.RemoveSubUndoesAdd | src/App.js:221-229 | without a collision, deleting the sub-item just added restores the agenda |
| Properties.UpdateEventPatch | src/App.js:107-113 | an empty partial update is a no-op, and applying an update twice equals applying it once |
| Properties.UpdateSubPatch | src/App.js:165-174 | the same for sub-items |
| Properties.MoveEventOntoItself | src/App.js:233 | dragging an event onto itself, or with nothing dragged, is a no-op |
| Properties.AddSubFirstAtEventTime | src/App.js:64-67 | for every agenda, the first sub-item of an event is stored at the event's own time (08:00 when it has none) |
| Properties.AppendStepsDefaultTime | src/App.js:44-62 | successive appended events come 15 minutes apart, because the new event with no sub-items becomes the last time in use |
| Properties.AddSubStepsDefaultTime | src/App.js:64-72 | successive added sub-items come 15 minutes apart, nudge or not |
| Properties.ExampleFirstEvent | src/App.js:44-45 | the first event of an empty agenda is an empty 08:00 event |
| Properties.ExampleChangeEventTime | src/App.js:115-126 | with 08:00 A and 08:15 B, moving A to 09:00 moves B to 09:15 |
| Properties.ExampleAddSubCollision | src/App.js:145-158 | a new sub-item at 08:30 passes the next event at 08:20, which moves to 08:35 |
| Properties.ExampleNudgeFallsShort | src/App.js:153-157 | the single 15-minute nudge can leave the next event before the new sub-item |
| Properties.ExampleFirstSubAtEventTime | src/App.js:64-67 | an event's first sub-item takes the event's own time, with no 15-minute step |
| Properties.ExampleWrapPastMidnight | src/App.js:120-123 | a +10 change cascades 23:50 onto 00:00: the clock wraps |
| Properties.ShiftEventInDay | src/App.js:29-42 | a shift that stays inside the day moves the event's time and every sub-item's time by exactly the delta and keeps the event's internal order |
| Properties.ShiftFromChronological | src/App.js:121-123 | moving a tail of a chronological agenda later, inside the day, keeps it chronological |
| Properties.AddEventAtEndChronological | src/App.js:44-62 | without passing midnight, the appended event comes 15 minutes after the last time in use, after every existing event, and keeps the agenda chronological |
| Properties.AddSubToChronological | src/App.js:128-162 | without passing midnight, adding a sub-item keeps a chronological agenda chronological, collision nudge included |
| Properties.ChangeEventTimeLaterChronological | src/App.js:115-126 | without passing midnight, moving an event later keeps a chronological agenda chronological |

## Left out

- React state plumbing, dark mode and all rendering (src/App.js:593-827): user-interface concerns.
- Loading and saving in local storage (src/App.js:74-93): browser I/O and JSON parsing.
- The drag-and-drop handlers (src/App.js:311-354): they only turn a gesture into a `moveEvent` or `moveSub` call. The model takes the ids directly.
- The text, PDF, Word and calendar exporters (src/App.js:357-591): one-way formatters, three of them over foreign libraries or today's date.
- Id generation from `Date.now() + Math.random()`: the fresh id is a parameter. Ids are `int`, although the program's are fractional doubles; only equality and the falsy 0 matter.
- Daylight-saving days: `addMinutes` works on absolute time and `differenceInMinutes` on two parses of today. Across a clock change these can differ by an hour from the minute arithmetic. The model treats every day as 1440 minutes.
- Clock.Parse: the date library also accepts one-digit hours and minutes. The model parses only the zero-padded five-character form that the time input delivers.
- Malformed or empty new-time strings in `changeEventTime`/`changeSubTime` (a cleared time input gives a NaN delta): the new time is a `Minute`.
- A missing time read as `undefined` (a field absent from saved data) rather than `""`: the model treats both alike, as `""` behaves. How the date library parses `undefined` depends on its version.
- Edits.ChangeSubTime: a sub-item without a time is accepted only when it is the last one. Otherwise the program throws a RangeError while printing the next sub-item's time, and that error is not modelled.
- Edits.AddSubTo, Edits.UpdateSub, Edits.ChangeSubTime, Edits.RemoveSub, Edits.UpdateEvent: they require in-range indices. The program throws a TypeError on a bad event or sub-item index there, or, in `updateEvent`/`updateSub`, writes a sparse array slot. The user interface only passes rendered indices.
- Events without a `subs` array: in the model every event has a sequence of sub-items. `shiftEventWithSubs`, `nextDefaultTime` and `defaultSubTime` guard a missing array, and `changeEventTime`, `moveEvent`, `removeEvent`, `updateEvent` and `addEventAtEnd` never read it. Only `addSubTo`, `updateSub`, `changeSubTime`, `removeSub` and `moveSub` throw, and only on the event they target.
- Partial updates that carry an `id` or `subs`: a patch carries only a time and a title. The user interface sends only titles.
- The chronology lemmas assume no time passes midnight. The program does not guard against wrapping, so a chronological agenda can stop being one at the day's end (`Properties.ExampleWrapPastMidnight`).
- Reorder.MoveEvent: the sorted, slot-preserving guarantee is stated only for agendas in which every event has a time; sub-items without a time are allowed. An event without a time gets delta 0 in the program and keeps no time, so the slot it stands for (08:00) can be handed out twice while another slot is lost.
