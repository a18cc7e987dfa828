/**
 * The event change/undo coordinator (`js/eventManager.js`). Pure part: the
 * snackbar message of a change, and the forward and inverse transforms of
 * the event list. Stateful part: the `EventManager` object, which writes the
 * store and its single "last change" slot, remembers the UI context of the
 * last change, calls the view callbacks and drives the snackbar.
 */
module EventManager {
  import opened Wrappers
  import opened Text
  import opened Entities
  import CalendarUtils
  import Clock
  import opened Storage
  import opened SnackbarComponent

  // ---------------------------------------------------------------------
  // Snackbar message
  // ---------------------------------------------------------------------

  /** `buildMessage(action, after)`: every message begins with "Event ". */
  function BuildMessage(action: Action, after: Option<Event>): (r: string)
    ensures StartsWith(r, "Event ")
  {
    if action == Reschedule && after.Some? && after.value.start.Some? then
      var t := after.value.start.value;
      var rest := CalendarUtils.FormatDateForSnackbar(t) + ", " + CalendarUtils.FormatTimeForSnackbar(t);
      StartsWithAppend("Event rescheduled to ", rest, "Event ");
      "Event rescheduled to " + rest
    else if action == Create then "Event created"
    else if action == Edit then "Event saved"
    else if action == Delete then "Event deleted"
    else "Event updated"
  }

  /** A reschedule that carries a new start time. */
  predicate RescheduledWithStart(action: Action, after: Option<Event>) {
    action == Reschedule && after.Some? && after.value.start.Some?
  }

  /**
   * Create, edit and delete have their own fixed messages, and a reschedule
   * with a start names the new date and time.
   */
  lemma MessageOfAction(action: Action, after: Option<Event>)
    ensures action == Create ==> BuildMessage(action, after) == "Event created"
    ensures action == Edit ==> BuildMessage(action, after) == "Event saved"
    ensures action == Delete ==> BuildMessage(action, after) == "Event deleted"
    ensures RescheduledWithStart(action, after) ==> StartsWith(BuildMessage(action, after), "Event rescheduled to ")
  {
    if RescheduledWithStart(action, after) {
      var m, p := BuildMessage(action, after), "Event rescheduled to ";
      assert m[..|p|] == p;
    }
  }

  /**
   * "Event updated" is the message of exactly the changes that are neither a
   * create, an edit, a delete nor a reschedule with a start.
   */
  lemma UpdatedMessage(action: Action, after: Option<Event>)
    ensures BuildMessage(action, after) == "Event updated"
        <==> !(action in {Create, Edit, Delete} || RescheduledWithStart(action, after))
  {
    if RescheduledWithStart(action, after) {
      var m := BuildMessage(action, after);
      assert m[6] == 'r';
      assert "Event updated"[6] == 'u';
    }
  }

  // ---------------------------------------------------------------------
  // Event list transforms
  // ---------------------------------------------------------------------

  /** `events.map((m) => (m.id === id ? e : m))` */
  function Replaced(events: seq<Event>, id: string, e: Event): (r: seq<Event>)
    ensures |r| == |events|
  {
    seq(|events|, i requires 0 <= i < |events| => if events[i].id == id then e else events[i])
  }

  /** `events.map((m) => (m.id === id ? {...m, start, end} : m))` */
  function Retimed(events: seq<Event>, id: string, start: Option<Clock.Instant>, end: Option<Clock.Instant>): (r: seq<Event>)
    ensures |r| == |events|
  {
    seq(|events|, i requires 0 <= i < |events| =>
      if events[i].id == id then events[i].(start := start, end := end) else events[i])
  }

  /** `events.filter((m) => m.id !== id)`: the elements with another id, in order. */
  function Without(events: seq<Event>, id: string): (r: seq<Event>)
    ensures |r| <= |events|
    ensures forall e :: e in r <==> e in events && e.id != id
  {
    if |events| == 0 then []
    else (if events[0].id == id then [] else [events[0]]) + Without(events[1..], id)
  }

  /** The ids of the records a change carries. */
  function CarriedIds(before: Option<Event>, after: Option<Event>): set<string> {
    (if before.Some? then {before.value.id} else {}) + (if after.Some? then {after.value.id} else {})
  }

  /** Replacing by a record adds at most that record's id. */
  lemma ReplacedIds(events: seq<Event>, id: string, e: Event)
    ensures Ids(Replaced(events, id, e)) <= Ids(events) + {e.id}
    ensures forall x :: x in events && x.id != id ==> x in Replaced(events, id, e)
  {
    var r := Replaced(events, id, e);
    forall x | x in r ensures x.id in Ids(events) + {e.id} {
      var i :| 0 <= i < |r| && r[i] == x;
      assert events[i] in events;
    }
    forall x | x in events && x.id != id ensures x in r {
      var i :| 0 <= i < |events| && events[i] == x;
      assert r[i] == x;
    }
  }

  /** Retiming keeps every id, and every element with another id. */
  lemma RetimedIds(events: seq<Event>, id: string, start: Option<Clock.Instant>, end: Option<Clock.Instant>)
    ensures Ids(Retimed(events, id, start, end)) <= Ids(events)
    ensures forall x :: x in events && x.id != id ==> x in Retimed(events, id, start, end)
  {
    var r := Retimed(events, id, start, end);
    forall x | x in r ensures x.id in Ids(events) {
      var i :| 0 <= i < |r| && r[i] == x;
      assert events[i] in events;
    }
    forall x | x in events && x.id != id ensures x in r {
      var i :| 0 <= i < |events| && events[i] == x;
      assert r[i] == x;
    }
  }

  /**
   * `applyChangeToEvents`: the list after a change; anything but an array
   * counts as empty. A change grows the list by at most one element, brings
   * in no id but those of the records it carries, and keeps every element
   * whose id is not one of them.
   */
  function ApplyChangeToEvents(action: Action, before: Option<Event>, after: Option<Event>, events: MaybeList<Event>)
    : (r: seq<Event>)
    ensures |r| <= |events.Items()| + 1
    ensures Ids(r) <= Ids(events.Items()) + CarriedIds(before, after)
    ensures forall x :: x in events.Items() && x.id !in CarriedIds(before, after) ==> x in r
  {
    var current := events.Items();
    if action == Create && after.Some? then current + [after.value]
    else if action == Edit && after.Some? then
      ReplacedIds(current, after.value.id, after.value);
      Replaced(current, after.value.id, after.value)
    else if action == Delete && before.Some? then Without(current, before.value.id)
    else if action == Reschedule && after.Some? then
      RetimedIds(current, after.value.id, after.value.start, after.value.end);
      Retimed(current, after.value.id, after.value.start, after.value.end)
    else current
  }

  /** `applyUndoToEvents`: the list after undoing a change, with the same bounds as a change. */
  function ApplyUndoToEvents(action: Action, before: Option<Event>, after: Option<Event>, events: MaybeList<Event>)
    : (r: seq<Event>)
    ensures |r| <= |events.Items()| + 1
    ensures Ids(r) <= Ids(events.Items()) + CarriedIds(before, after)
    ensures forall x :: x in events.Items() && x.id !in CarriedIds(before, after) ==> x in r
  {
    var current := events.Items();
    if action == Create && after.Some? then Without(current, after.value.id)
    else if action == Edit && before.Some? then
      ReplacedIds(current, before.value.id, before.value);
      Replaced(current, before.value.id, before.value)
    else if action == Delete && before.Some? then current + [before.value]
    else if action == Reschedule && before.Some? then
      RetimedIds(current, before.value.id, before.value.start, before.value.end);
      Retimed(current, before.value.id, before.value.start, before.value.end)
    else current
  }

  /** The id a change looks up: `before.id` for a delete, `after.id` otherwise. */
  function LookedUpId(action: Action, before: Option<Event>, after: Option<Event>): Option<string> {
    if action == Delete then (if before.Some? then Some(before.value.id) else None)
    else if action in {Edit, Reschedule} && after.Some? then Some(after.value.id)
    else None
  }

  lemma {:induction false} WithoutAbsent(events: seq<Event>, id: string)
    requires id !in Ids(events)
    ensures Without(events, id) == events
  {
    if |events| > 0 {
      assert events[0] in events;
      assert Ids(events[1..]) <= Ids(events);
      WithoutAbsent(events[1..], id);
      assert events == [events[0]] + events[1..];
    }
  }

  lemma {:induction false} WithoutPresent(events: seq<Event>, id: string)
    requires id in Ids(events)
    ensures |Without(events, id)| < |events|
  {
    if events[0].id != id {
      var e :| e in events && e.id == id;
      assert e in events[1..];
      WithoutPresent(events[1..], id);
    }
  }

  lemma {:induction false} WithoutAppend(events: seq<Event>, e: Event, id: string)
    ensures Without(events + [e], id) == Without(events, id) + Without([e], id)
  {
    if |events| == 0 {
      assert events + [e] == [e];
    } else {
      assert (events + [e])[1..] == events[1..] + [e];
      WithoutAppend(events[1..], e, id);
    }
  }

  /**
   * An edit, delete or reschedule whose id matches no element leaves the
   * list unchanged, and so do unknown actions and changes missing the
   * record they need.
   */
  lemma ChangeWithoutMatch(action: Action, before: Option<Event>, after: Option<Event>, events: seq<Event>)
    requires LookedUpId(action, before, after).Some? ==> LookedUpId(action, before, after).value !in Ids(events)
    requires action != Create || after.None?
    ensures ApplyChangeToEvents(action, before, after, List(events)) == events
  {
    if action == Delete && before.Some? {
      WithoutAbsent(events, before.value.id);
    } else if action in {Edit, Reschedule} && after.Some? {
      var r := ApplyChangeToEvents(action, before, after, List(events));
      forall i | 0 <= i < |events| ensures r[i] == events[i] {
        assert events[i] in events;
      }
    }
  }

  /**
   * The undo's fall-through: an unknown action, a missing record, or an id
   * that no element carries leaves the list unchanged. Only a delete undo
   * with a `before` always changes the list (it re-appends).
   */
  lemma UndoWithoutMatch(action: Action, before: Option<Event>, after: Option<Event>, events: seq<Event>)
    requires action == Create && after.Some? ==> after.value.id !in Ids(events)
    requires action in {Edit, Reschedule} && before.Some? ==> before.value.id !in Ids(events)
    requires action != Delete || before.None?
    ensures ApplyUndoToEvents(action, before, after, List(events)) == events
  {
    if action == Create && after.Some? {
      WithoutAbsent(events, after.value.id);
    } else if action in {Edit, Reschedule} && before.Some? {
      var r := ApplyUndoToEvents(action, before, after, List(events));
      forall i | 0 <= i < |events| ensures r[i] == events[i] {
        assert events[i] in events;
      }
    }
  }

  /** A list that is not an array is treated as empty, by both transforms. */
  lemma NotListIsEmpty(action: Action, before: Option<Event>, after: Option<Event>)
    ensures ApplyChangeToEvents(action, before, after, NotList) == ApplyChangeToEvents(action, before, after, List([]))
    ensures ApplyUndoToEvents(action, before, after, NotList) == ApplyUndoToEvents(action, before, after, List([]))
  {
  }

  /** Create appends the new event at the end. */
  lemma CreateAppends(before: Option<Event>, e: Event, events: seq<Event>)
    ensures ApplyChangeToEvents(Create, before, Some(e), List(events)) == events + [e]
  {
  }

  /**
   * Undoing a create removes every element with the created id: it gives the
   * original list back exactly when that id was not already in use.
   */
  lemma CreateUndo(before: Option<Event>, e: Event, events: seq<Event>)
    ensures var changed := ApplyChangeToEvents(Create, before, Some(e), List(events));
      ApplyUndoToEvents(Create, before, Some(e), List(changed)) == events <==> e.id !in Ids(events)
  {
    WithoutAppend(events, e, e.id);
    assert Without([e], e.id) == [];
    if e.id in Ids(events) {
      WithoutPresent(events, e.id);
    } else {
      WithoutAbsent(events, e.id);
    }
  }

  /**
   * Edit replaces every element with the new record's id by the new record
   * and keeps all other elements in place.
   */
  lemma EditReplacesAll(before: Option<Event>, e: Event, events: seq<Event>, i: nat)
    requires i < |events|
    ensures var r := ApplyChangeToEvents(Edit, before, Some(e), List(events));
      |r| == |events| && r[i] == if events[i].id == e.id then e else events[i]
  {
  }

  /**
   * Undoing an edit writes the old record back at the positions of its id:
   * when the edit kept the id and every element with it was the old record,
   * the original list comes back.
   */
  lemma EditUndo(prior: Event, e: Event, events: seq<Event>)
    requires prior.id == e.id
    requires forall x :: x in events && x.id == prior.id ==> x == prior
    ensures var changed := ApplyChangeToEvents(Edit, Some(prior), Some(e), List(events));
      ApplyUndoToEvents(Edit, Some(prior), Some(e), List(changed)) == events
  {
    var changed := ApplyChangeToEvents(Edit, Some(prior), Some(e), List(events));
    var back := ApplyUndoToEvents(Edit, Some(prior), Some(e), List(changed));
    forall i | 0 <= i < |events| ensures back[i] == events[i] {
      assert events[i] in events;
    }
  }

  /** Undoing an edit recorded without its old version changes nothing. */
  lemma EditUndoWithoutBefore(after: Option<Event>, events: seq<Event>)
    ensures ApplyUndoToEvents(Edit, None, after, List(events)) == events
  {
  }

  /**
   * Delete then undo gives the list without the deleted id followed by the
   * deleted record: the record comes back, but at the end.
   */
  lemma DeleteUndo(b: Event, after: Option<Event>, events: seq<Event>)
    ensures var changed := ApplyChangeToEvents(Delete, Some(b), after, List(events));
      ApplyUndoToEvents(Delete, Some(b), after, List(changed)) == Without(events, b.id) + [b]
  {
  }

  /** Removing an id removes all copies of the one record holding it, and nothing else. */
  lemma {:induction false} WithoutMultiset(events: seq<Event>, b: Event)
    requires forall x :: x in events && x.id == b.id ==> x == b
    ensures multiset(Without(events, b.id)) == multiset(events)[b := 0]
  {
    if |events| > 0 {
      assert events == [events[0]] + events[1..];
      assert forall x :: x in events[1..] ==> x in events;
      WithoutMultiset(events[1..], b);
      if events[0].id == b.id {
        assert events[0] == b;
      }
    }
  }

  /**
   * When the deleted record was the only element with its id, delete then
   * undo is a permutation of the original list exactly when the record
   * occurred once.
   */
  lemma DeleteUndoPermutation(b: Event, after: Option<Event>, events: seq<Event>)
    requires forall x :: x in events && x.id == b.id ==> x == b
    ensures var changed := ApplyChangeToEvents(Delete, Some(b), after, List(events));
      var back := ApplyUndoToEvents(Delete, Some(b), after, List(changed));
      multiset(back) == multiset(events) <==> multiset(events)[b] == 1
  {
    DeleteUndo(b, after, events);
    WithoutMultiset(events, b);
    var back := Without(events, b.id) + [b];
    assert multiset(back) == multiset(events)[b := 0] + multiset{b};
    if multiset(back) == multiset(events) {
      assert multiset(back)[b] == 1;
    }
  }

  /** Deleting the last element, whose id no other element has, and undoing gives the original list. */
  lemma DeleteLastUndo(init: seq<Event>, b: Event, after: Option<Event>)
    requires b.id !in Ids(init)
    ensures var changed := ApplyChangeToEvents(Delete, Some(b), after, List(init + [b]));
      ApplyUndoToEvents(Delete, Some(b), after, List(changed)) == init + [b]
  {
    WithoutAppend(init, b, b.id);
    WithoutAbsent(init, b.id);
    assert Without([b], b.id) == [];
  }

  /**
   * Reschedule gives matching elements the new record's start and end and
   * keeps every other field of the stored element; other elements stay.
   */
  lemma RescheduleKeepsFields(before: Option<Event>, e: Event, events: seq<Event>, i: nat)
    requires i < |events|
    ensures var r := ApplyChangeToEvents(Reschedule, before, Some(e), List(events));
      |r| == |events| && r[i].(start := events[i].start, end := events[i].end) == events[i]
      && (events[i].id == e.id ==> r[i].start == e.start && r[i].end == e.end)
      && (events[i].id != e.id ==> r[i] == events[i])
  {
  }

  /**
   * Undoing a reschedule puts the old start and end back: when the
   * reschedule kept the id and every element with it had the old times, the
   * original list comes back.
   */
  lemma RescheduleUndo(prior: Event, e: Event, events: seq<Event>)
    requires prior.id == e.id
    requires forall x :: x in events && x.id == prior.id ==> x.start == prior.start && x.end == prior.end
    ensures var changed := ApplyChangeToEvents(Reschedule, Some(prior), Some(e), List(events));
      ApplyUndoToEvents(Reschedule, Some(prior), Some(e), List(changed)) == events
  {
    var changed := ApplyChangeToEvents(Reschedule, Some(prior), Some(e), List(events));
    var back := ApplyUndoToEvents(Reschedule, Some(prior), Some(e), List(changed));
    forall i | 0 <= i < |events| ensures back[i] == events[i] {
      assert events[i] in events;
    }
  }

  // ---------------------------------------------------------------------
  // The coordinator object
  // ---------------------------------------------------------------------

  /** A view callback handed over in a UI context. */
  datatype ViewCallback = ViewCallback(name: string)

  /** `uiContext`: the callbacks to run after a change and after its undo (missing ones are `null`). */
  datatype UiContext = UiContext(applyAfterChange: Option<ViewCallback>, applyAfterUndo: Option<ViewCallback>)

  /** A call the coordinator made to a view callback, with its arguments. */
  datatype ViewCall =
    | AfterChange(callback: ViewCallback, events: seq<Event>, action: Action, before: Option<Event>, after: Option<Event>)
    | AfterUndo(callback: ViewCallback, events: seq<Event>, last: ChangeRecord)

  /** `source || null` */
  function SourceOrNull(source: Option<string>): Option<string> {
    if source == Some("") then None else source
  }

  /** The record `setLastEvent` stores for a change. */
  function RecordOf(action: Action, before: Option<Event>, after: Option<Event>, source: Option<string>): ChangeRecord {
    ChangeRecord(action, before, after, SourceOrNull(source))
  }

  const UndoneMessage: string := "Undid last change"

  class EventManager {
    const storage: GlobalStorage
    const snackbar: Snackbar
    var lastUiContext: Option<UiContext>
    /** Every view callback call made so far, oldest first. */
    var viewCalls: seq<ViewCall>

    /**
     * The snackbar's own invariant holds, and the UI context is remembered
     * exactly while the slot holds a change.
     */
    predicate Valid()
      reads this, storage, snackbar
    {
      snackbar.Valid() && (storage.lastEvent.Some? <==> lastUiContext.Some?)
    }

    constructor(storage: GlobalStorage, snackbar: Snackbar)
      requires snackbar.Valid() && storage.lastEvent == None
      ensures this.storage == storage && this.snackbar == snackbar
      ensures lastUiContext == None && viewCalls == []
      ensures Valid()
    {
      this.storage := storage;
      this.snackbar := snackbar;
      lastUiContext := None;
      viewCalls := [];
    }

    /** `setLastEvent`: the slot holds the change with missing parts as `null`. */
    method SetLastEvent(action: Action, before: Option<Event>, after: Option<Event>, source: Option<string>)
      modifies storage
      ensures storage.lastEvent == Some(RecordOf(action, before, after, source))
      ensures storage.events == old(storage.events) && storage.messages == old(storage.messages)
      ensures storage.friends == old(storage.friends) && storage.buildings == old(storage.buildings)
    {
      storage.SetLastEvent(Some(RecordOf(action, before, after, source)));
    }

    /** `clearLastEvent`: empties the slot and forgets the UI context. */
    method ClearLastEvent()
      modifies this, storage
      ensures storage.lastEvent == None && lastUiContext == None
      ensures viewCalls == old(viewCalls)
      ensures storage.events == old(storage.events) && storage.messages == old(storage.messages)
      ensures storage.friends == old(storage.friends) && storage.buildings == old(storage.buildings)
    {
      storage.ClearLastEvent();
      lastUiContext := None;
    }

    /**
     * `applyChange`: stores the forward result, records the change in the
     * slot, remembers the UI context, calls `applyAfterChange` with the new
     * list, and shows the change's message with an undo handler.
     */
    method ApplyChange(action: Action, before: Option<Event>, after: Option<Event>, invite: string,
                       source: Option<string>, ui: UiContext)
      requires Valid()
      modifies this, storage, snackbar
      ensures Valid()
      ensures storage.events == ApplyChangeToEvents(action, before, after, List(old(storage.events)))
      ensures storage.lastEvent == Some(RecordOf(action, before, after, source))
      ensures storage.messages == old(storage.messages) && storage.friends == old(storage.friends)
      ensures storage.buildings == old(storage.buildings)
      ensures lastUiContext == Some(ui)
      ensures viewCalls == old(viewCalls) + if ui.applyAfterChange.None? then []
        else [AfterChange(ui.applyAfterChange.value, storage.events, action, before, after)]
      ensures snackbar.Mounted() ==> snackbar.Displays(BuildMessage(action, after), invite, Some(UndoLastChangeHandler), DefaultAutoHideMs)
      ensures !snackbar.Mounted() ==> unchanged(snackbar)
    {
      var events := storage.GetEvents();
      var updated := ApplyChangeToEvents(action, before, after, List(events));
      storage.SetEvents(List(updated));
      SetLastEvent(action, before, after, source);
      lastUiContext := Some(ui);
      if ui.applyAfterChange.Some? {
        viewCalls := viewCalls + [AfterChange(ui.applyAfterChange.value, updated, action, before, after)];
      }
      snackbar.Show(Some(BuildMessage(action, after)), Some(invite), Some(UndoLastChangeHandler), None);
    }

    /**
     * `undoLastChange`: with an empty slot nothing happens. Otherwise the
     * inverse transform is stored, `applyAfterUndo` is called with the
     * reverted list and the record, slot and UI context are cleared, and the
     * snackbar shows "Undid last change" with no undo handler.
     */
    method UndoLastChange()
      requires Valid()
      modifies this, storage, snackbar
      ensures Valid()
      ensures old(storage.lastEvent).None? ==> unchanged(this, storage, snackbar)
      ensures old(storage.lastEvent).Some? ==>
        var last := old(storage.lastEvent).value;
        storage.events == ApplyUndoToEvents(last.action, last.before, last.after, List(old(storage.events)))
        && storage.lastEvent == None && lastUiContext == None
        && viewCalls == old(viewCalls) + (if old(lastUiContext).None? || old(lastUiContext).value.applyAfterUndo.None? then []
             else [AfterUndo(old(lastUiContext).value.applyAfterUndo.value, storage.events, last)])
        && (snackbar.Mounted() ==> snackbar.Displays(UndoneMessage, "", None, DefaultAutoHideMs))
        && (!snackbar.Mounted() ==> unchanged(snackbar))
      ensures storage.messages == old(storage.messages) && storage.friends == old(storage.friends)
      ensures storage.buildings == old(storage.buildings)
    {
      var last := storage.GetLastEvent();
      if last.None? {
        return;
      }
      var record := last.value;
      var events := storage.GetEvents();
      var reverted := ApplyUndoToEvents(record.action, record.before, record.after, List(events));
      storage.SetEvents(List(reverted));
      if lastUiContext.Some? && lastUiContext.value.applyAfterUndo.Some? {
        viewCalls := viewCalls + [AfterUndo(lastUiContext.value.applyAfterUndo.value, reverted, record)];
      }
      ClearLastEvent();
      snackbar.Show(Some(UndoneMessage), Some(""), None, None);
    }

    /** `createEvent`: a create of `data`, noticing its invitees. */
    method CreateEvent(source: Option<string>, data: Event, ui: UiContext)
      requires Valid()
      modifies this, storage, snackbar
      ensures Valid()
      ensures storage.events == old(storage.events) + [data]
      ensures storage.lastEvent == Some(RecordOf(Create, None, Some(data), source))
      ensures snackbar.Mounted() ==> snackbar.Displays("Event created", data.invite, Some(UndoLastChangeHandler), DefaultAutoHideMs)
      ensures storage.messages == old(storage.messages) && storage.friends == old(storage.friends)
      ensures storage.buildings == old(storage.buildings)
      ensures lastUiContext == Some(ui)
      ensures viewCalls == old(viewCalls) + if ui.applyAfterChange.None? then []
        else [AfterChange(ui.applyAfterChange.value, storage.events, Create, None, Some(data))]
      ensures !snackbar.Mounted() ==> unchanged(snackbar)
    {
      ApplyChange(Create, None, Some(data), data.invite, SourceOrNull(source), ui);
    }

    /** `editEvent`: an edit to `after`, noticing the new invitees. */
    method EditEvent(source: Option<string>, before: Option<Event>, after: Event, ui: UiContext)
      requires Valid()
      modifies this, storage, snackbar
      ensures Valid()
      ensures storage.events == Replaced(old(storage.events), after.id, after)
      ensures storage.lastEvent == Some(RecordOf(Edit, before, Some(after), source))
      ensures snackbar.Mounted() ==> snackbar.Displays("Event saved", after.invite, Some(UndoLastChangeHandler), DefaultAutoHideMs)
      ensures storage.messages == old(storage.messages) && storage.friends == old(storage.friends)
      ensures storage.buildings == old(storage.buildings)
      ensures lastUiContext == Some(ui)
      ensures viewCalls == old(viewCalls) + if ui.applyAfterChange.None? then []
        else [AfterChange(ui.applyAfterChange.value, storage.events, Edit, before, Some(after))]
      ensures !snackbar.Mounted() ==> unchanged(snackbar)
    {
      ApplyChange(Edit, before, Some(after), after.invite, SourceOrNull(source), ui);
    }

    /** `deleteEvent`: a delete of `before`, noticing its invitees. */
    method DeleteEvent(source: Option<string>, before: Event, ui: UiContext)
      requires Valid()
      modifies this, storage, snackbar
      ensures Valid()
      ensures storage.events == Without(old(storage.events), before.id)
      ensures storage.lastEvent == Some(RecordOf(Delete, Some(before), None, source))
      ensures snackbar.Mounted() ==> snackbar.Displays("Event deleted", before.invite, Some(UndoLastChangeHandler), DefaultAutoHideMs)
      ensures storage.messages == old(storage.messages) && storage.friends == old(storage.friends)
      ensures storage.buildings == old(storage.buildings)
      ensures lastUiContext == Some(ui)
      ensures viewCalls == old(viewCalls) + if ui.applyAfterChange.None? then []
        else [AfterChange(ui.applyAfterChange.value, storage.events, Delete, Some(before), None)]
      ensures !snackbar.Mounted() ==> unchanged(snackbar)
    {
      ApplyChange(Delete, Some(before), None, before.invite, SourceOrNull(source), ui);
    }

    /** `rescheduleEvent`: new times from `after`; the notice uses `after.invite`, else `before.invite`. */
    method RescheduleEvent(source: Option<string>, before: Event, after: Event, ui: UiContext)
      requires Valid()
      modifies this, storage, snackbar
      ensures Valid()
      ensures storage.events == Retimed(old(storage.events), after.id, after.start, after.end)
      ensures storage.lastEvent == Some(RecordOf(Reschedule, Some(before), Some(after), source))
      ensures snackbar.Mounted() ==>
        snackbar.Displays(BuildMessage(Reschedule, Some(after)), if after.invite != "" then after.invite else before.invite,
                          Some(UndoLastChangeHandler), DefaultAutoHideMs)
      ensures storage.messages == old(storage.messages) && storage.friends == old(storage.friends)
      ensures storage.buildings == old(storage.buildings)
      ensures lastUiContext == Some(ui)
      ensures viewCalls == old(viewCalls) + if ui.applyAfterChange.None? then []
        else [AfterChange(ui.applyAfterChange.value, storage.events, Reschedule, Some(before), Some(after))]
      ensures !snackbar.Mounted() ==> unchanged(snackbar)
    {
      var invite := if after.invite != "" then after.invite else before.invite;
      ApplyChange(Reschedule, Some(before), Some(after), invite, SourceOrNull(source), ui);
    }

    /**
     * A click on the snackbar's undo button: the coordinator's own handler
     * undoes the last change; with no handler set nothing happens.
     */
    method ClickUndo()
      requires Valid()
      modifies this, storage, snackbar
      ensures Valid()
      ensures !(snackbar.hasUndoButton && old(snackbar.currentOnUndo) == Some(UndoLastChangeHandler)) ==>
        unchanged(this, storage, snackbar)
      ensures snackbar.hasUndoButton && old(snackbar.currentOnUndo) == Some(UndoLastChangeHandler) && old(storage.lastEvent).None? ==>
        unchanged(this, storage, snackbar)
      ensures snackbar.hasUndoButton && old(snackbar.currentOnUndo) == Some(UndoLastChangeHandler) && old(storage.lastEvent).Some? ==>
        var last := old(storage.lastEvent).value;
        storage.events == ApplyUndoToEvents(last.action, last.before, last.after, List(old(storage.events)))
        && storage.lastEvent == None && lastUiContext == None
        && viewCalls == old(viewCalls) + (if old(lastUiContext).None? || old(lastUiContext).value.applyAfterUndo.None? then []
             else [AfterUndo(old(lastUiContext).value.applyAfterUndo.value, storage.events, last)])
        && (snackbar.Mounted() ==> snackbar.Displays(UndoneMessage, "", None, DefaultAutoHideMs))
        && snackbar.currentOnUndo == None
      ensures storage.messages == old(storage.messages) && storage.friends == old(storage.friends)
      ensures storage.buildings == old(storage.buildings)
    {
      var call := snackbar.ClickUndo();
      if call == Some(UndoLastChangeHandler) {
        UndoLastChange();
      }
    }

    /**
     * Undo is single-slot: a second `undoLastChange` right after the first
     * finds the slot empty and changes nothing.
     */
    method UndoTwice()
      requires Valid()
      modifies this, storage, snackbar
      ensures Valid()
      ensures old(storage.lastEvent).Some? ==>
        var last := old(storage.lastEvent).value;
        storage.events == ApplyUndoToEvents(last.action, last.before, last.after, List(old(storage.events)))
      ensures old(storage.lastEvent).None? ==> storage.events == old(storage.events)
      ensures storage.lastEvent == None
    {
      UndoLastChange();
      UndoLastChange();
    }

    /**
     * Creating an event whose id is not in use and clicking the snackbar's
     * undo gives the original list back; clicking undo once more does nothing.
     */
    method CreateThenClickUndoTwice(source: Option<string>, data: Event, ui: UiContext)
      requires Valid() && snackbar.Mounted() && snackbar.hasUndoButton
      requires data.id !in Ids(storage.events)
      modifies this, storage, snackbar
      ensures Valid()
      ensures storage.events == old(storage.events) && storage.lastEvent == None
    {
      ghost var events := storage.events;
      CreateEvent(source, data, ui);
      ClickUndo();
      CreateUndo(None, data, events);
      ClickUndo();
    }
  }
}
