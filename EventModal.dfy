/**
 * The data side of the shared create/edit event form
 * (`js/components/eventmodal.js`): the edit-mode id, the list of invited
 * friend ids, the form's field values and error texts, the invite and
 * location pickers, and the save path that validates the form and hands
 * the collected values to the page.
 */
module EventModal {
  import opened Wrappers
  import opened Text
  import opened Entities
  import opened Storage
  import Clock
  import CalendarUtils

  /** The calendar emoji the form shows when an event has none. */
  const DefaultEmoji: string := "\U{1F4C5}"
  const TitleMissingMessage: string := "Please provide a name for this event."
  /** `renderInviteOptions` lists at most this many friends. */
  const MaxInviteOptions: nat := 20

  /** The form's inputs, as text. */
  datatype Fields = Fields(
    title: string,
    date: string,
    timeStart: string,
    timeEnd: string,
    location: string,
    description: string,
    emoji: string)

  const EmptyFields: Fields := Fields("", "", "", "", "", "", DefaultEmoji)

  /** The three error lines under the title, the time row and the location. */
  datatype Errors = Errors(title: string, time: string, location: string)

  const NoErrors: Errors := Errors("", "", "")

  /** A JavaScript `Date` built from form text: an instant, or an invalid date (still truthy). */
  datatype Stamp = At(t: Clock.Instant) | InvalidDate

  /** What `saveEventFromModal` hands to the page. */
  datatype FormData = FormData(
    id: Option<string>,
    title: string,
    emoji: string,
    date: string,
    timeStart: string,
    timeEnd: string,
    start: Stamp,
    end: Stamp,
    location: string,
    description: string,
    invite: string,
    selectedFriendIds: seq<string>)

  predicate NoDuplicates(ids: seq<string>) {
    forall i, j :: 0 <= i < j < |ids| ==> ids[i] != ids[j]
  }

  // ---------------------------------------------------------------------
  // Friend lookups
  // ---------------------------------------------------------------------

  /** `friends.find((f) => f.name && f.name.toLowerCase() === name.toLowerCase())` */
  function FriendNamed(friends: seq<Friend>, name: string): (r: Option<Friend>)
    ensures r.Some? ==> (r.value in friends && r.value.name != "" && Lower(r.value.name) == Lower(name))
    ensures r.None? ==> forall f :: f in friends ==> f.name == "" || Lower(f.name) != Lower(name)
    decreases |friends|
  {
    if |friends| == 0 then None
    else if friends[0].name != "" && Lower(friends[0].name) == Lower(name) then Some(friends[0])
    else FriendNamed(friends[1..], name)
  }

  /** `friends.find((f) => f.id === id)` */
  function FriendById(friends: seq<Friend>, id: string): (r: Option<Friend>)
    ensures r.Some? ==> r.value in friends && r.value.id == id
    ensures r.None? ==> forall f :: f in friends ==> f.id != id
    decreases |friends|
  {
    if |friends| == 0 then None
    else if friends[0].id == id then Some(friends[0])
    else FriendById(friends[1..], id)
  }

  // ---------------------------------------------------------------------
  // Prefill from an invite text
  // ---------------------------------------------------------------------

  /**
   * The selection `open` builds from the invite names, in invite order: the
   * first friend each name matches, skipped when already chosen.
   */
  function PrefillIds(names: seq<string>, friends: seq<Friend>): (r: seq<string>)
    ensures |r| <= |names|
    decreases |names|
  {
    if |names| == 0 then []
    else
      var before := PrefillIds(names[..|names| - 1], friends);
      var friend := FriendNamed(friends, names[|names| - 1]);
      if friend.Some? && friend.value.id !in before then before + [friend.value.id] else before
  }

  /** Whether some invite name picks the friend with this id. */
  predicate PickedBy(names: seq<string>, friends: seq<Friend>, id: string) {
    exists n :: n in names && FriendNamed(friends, n).Some? && FriendNamed(friends, n).value.id == id
  }

  /** The prefilled selection has no duplicate and holds exactly the ids some invite name picks. */
  lemma {:induction false} PrefillIdsSpec(names: seq<string>, friends: seq<Friend>)
    ensures NoDuplicates(PrefillIds(names, friends))
    ensures forall id :: id in PrefillIds(names, friends) <==> PickedBy(names, friends, id)
    decreases |names|
  {
    if |names| > 0 {
      var init, last := names[..|names| - 1], names[|names| - 1];
      PrefillIdsSpec(init, friends);
      assert names == init + [last];
      forall id
        ensures PickedBy(names, friends, id) <==>
          (PickedBy(init, friends, id) || (FriendNamed(friends, last).Some? && FriendNamed(friends, last).value.id == id))
      {
        if PickedBy(names, friends, id) {
          var n :| n in names && FriendNamed(friends, n).Some? && FriendNamed(friends, n).value.id == id;
          if n != last {
            assert n in init;
          }
        }
        if PickedBy(init, friends, id) {
          var n :| n in init && FriendNamed(friends, n).Some? && FriendNamed(friends, n).value.id == id;
          assert n in names;
        }
      }
    }
  }

  /** The prefill loop of `open`. */
  method PrefillSelection(names: seq<string>, friends: seq<Friend>) returns (ids: seq<string>)
    ensures ids == PrefillIds(names, friends) && NoDuplicates(ids)
  {
    PrefillIdsSpec(names, friends);
    ids := [];
    var i := 0;
    while i < |names|
      invariant 0 <= i <= |names|
      invariant ids == PrefillIds(names[..i], friends)
    {
      var friend := FriendNamed(friends, names[i]);
      if friend.Some? && friend.value.id !in ids {
        ids := ids + [friend.value.id];
      }
      assert names[..i + 1][..i] == names[..i];
      i := i + 1;
    }
    assert names[..i] == names;
  }

  /** The selection `open` starts with: prefilled from a non-empty invite, else empty. */
  method SelectionFor(eventData: Option<Event>, friends: seq<Friend>) returns (ids: seq<string>)
    ensures ids == if eventData.Some? && eventData.value.invite != "" then PrefillIds(InviteNames(eventData.value.invite), friends)
                   else []
    ensures NoDuplicates(ids)
  {
    ids := [];
    if eventData.Some? && eventData.value.invite != "" {
      ids := PrefillSelection(InviteNames(eventData.value.invite), friends);
    }
  }

  // ---------------------------------------------------------------------
  // Removing from the selection
  // ---------------------------------------------------------------------

  /** `ids.filter((id) => id !== friendId)` */
  function Without(ids: seq<string>, friendId: string): seq<string>
    decreases |ids|
  {
    if |ids| == 0 then []
    else
      var rest := Without(ids[1..], friendId);
      if ids[0] == friendId then rest else [ids[0]] + rest
  }

  /** Filtering keeps exactly the other ids, never adds one, and keeps a duplicate-free list so. */
  lemma {:induction false} WithoutSpec(ids: seq<string>, friendId: string)
    ensures forall x :: x in Without(ids, friendId) <==> x in ids && x != friendId
    ensures |Without(ids, friendId)| <= |ids|
    ensures friendId !in ids ==> Without(ids, friendId) == ids
    ensures NoDuplicates(ids) ==> NoDuplicates(Without(ids, friendId))
    decreases |ids|
  {
    if |ids| > 0 {
      WithoutSpec(ids[1..], friendId);
      var rest := Without(ids[1..], friendId);
      if ids[0] != friendId && NoDuplicates(ids) {
        assert ids[0] !in ids[1..];
        var r := [ids[0]] + rest;
        forall i, j | 0 <= i < j < |r| ensures r[i] != r[j] {
          if i == 0 {
            assert r[j] in rest;
          } else {
            assert r[i] == rest[i - 1] && r[j] == rest[j - 1];
          }
        }
      }
    }
  }

  // ---------------------------------------------------------------------
  // Invite options
  // ---------------------------------------------------------------------

  /** Whether a friend is offered for a normalized query: not chosen, and named to match. */
  predicate Offered(friend: Friend, normalizedQuery: string, selected: seq<string>) {
    friend.id !in selected
    && (normalizedQuery != "" ==> friend.name != "" && Contains(Lower(friend.name), normalizedQuery))
  }

  /** The friends offered for a normalized query, in friend order, before the cap. */
  function OfferedFriends(friends: seq<Friend>, normalizedQuery: string, selected: seq<string>): seq<Friend>
    decreases |friends|
  {
    if |friends| == 0 then []
    else
      var rest := OfferedFriends(friends[1..], normalizedQuery, selected);
      if Offered(friends[0], normalizedQuery, selected) then [friends[0]] + rest else rest
  }

  lemma {:induction false} OfferedFriendsSpec(friends: seq<Friend>, q: string, selected: seq<string>)
    ensures forall f :: f in OfferedFriends(friends, q, selected) <==> f in friends && Offered(f, q, selected)
    decreases |friends|
  {
    if |friends| > 0 {
      OfferedFriendsSpec(friends[1..], q, selected);
      assert forall f :: f in friends <==> f == friends[0] || f in friends[1..];
    }
  }

  /** The list `renderInviteOptions` shows for the invite input's text (empty: "No Matching Friends"). */
  function InviteOptions(query: string, friends: seq<Friend>, selected: seq<string>): (r: seq<Friend>)
    ensures |r| <= MaxInviteOptions
    ensures forall f :: f in r ==> f in friends && f.id !in selected
  {
    OfferedFriendsSpec(friends, Lower(Trim(query)), selected);
    var matches := OfferedFriends(friends, Lower(Trim(query)), selected);
    if |matches| <= MaxInviteOptions then matches else matches[..MaxInviteOptions]
  }

  /**
   * At most 20 friends are shown; each is a friend not already chosen whose
   * lower-cased name holds the trimmed, lower-cased query (any name, for a
   * blank query); and when fewer than 20 are shown, every such friend is.
   */
  lemma InviteOptionsSpec(query: string, friends: seq<Friend>, selected: seq<string>)
    ensures var shown, q := InviteOptions(query, friends, selected), Lower(Trim(query));
      |shown| <= MaxInviteOptions
      && (forall f :: f in shown ==>
            (f in friends && f.id !in selected && (q != "" ==> f.name != "" && Contains(Lower(f.name), q))))
      && (|shown| < MaxInviteOptions ==> forall f :: f in friends && Offered(f, q, selected) ==> f in shown)
  {
    var q := Lower(Trim(query));
    OfferedFriendsSpec(friends, q, selected);
    var matches := OfferedFriends(friends, q, selected);
    if |matches| > MaxInviteOptions {
      forall f | f in matches[..MaxInviteOptions] ensures f in matches {
        var i :| 0 <= i < MaxInviteOptions && matches[..MaxInviteOptions][i] == f;
        assert matches[i] == f;
      }
    }
  }

  // ---------------------------------------------------------------------
  // Location picker
  // ---------------------------------------------------------------------

  /**
   * The text a click on a location option writes into the input: "label,
   * building" for a typed non-building choice that has a building, the
   * plain label otherwise.
   */
  function PickedLocationValue(choice: CalendarUtils.LocationChoice): string {
    if choice.kind != "" && choice.kind != "building" && choice.buildingName != "" then
      choice.caption + ", " + choice.buildingName
    else choice.caption
  }

  /**
   * Whatever option is picked from the list, the written text passes the
   * save-time location check (for clean labels and building names, with no
   * comma in the label).
   */
  lemma PickedLocationIsValid(choice: CalendarUtils.LocationChoice, choices: seq<CalendarUtils.LocationChoice>)
    requires choice in choices && choice.caption == choice.locationName
    requires choice.caption != "" && Trim(choice.caption) == choice.caption && ',' !in choice.caption
    requires Trim(choice.buildingName) == choice.buildingName
    ensures CalendarUtils.ValidateLocationValue(PickedLocationValue(choice), choices).valid
    ensures choice.kind == "building" || choice.buildingName == "" ==> PickedLocationValue(choice) == choice.caption
  {
    if choice.kind != "" && choice.kind != "building" && choice.buildingName != "" {
      CalendarUtils.PickedPlaceIsValid(choice, choices);
    } else {
      CalendarUtils.PickedCaptionIsValid(choice, choices);
    }
  }

  // ---------------------------------------------------------------------
  // Save
  // ---------------------------------------------------------------------

  /** `new Date(`${date}T${time}`)` */
  function DateTimeStamp(date: string, time: string): Stamp {
    var t := CalendarUtils.ParseLocalDateTime(date, time);
    if t.Some? then At(t.value) else InvalidDate
  }

  /** `new Date(date)`: a date alone is midnight of that day. */
  function DateStamp(date: string): (r: Stamp)
    ensures r.At? <==> CalendarUtils.ParseDateInput(date).Some?
    ensures r.At? ==> Clock.MinuteOfDay(r.t) == 0
  {
    var d := CalendarUtils.ParseDateInput(date);
    if d.Some? then
      var n := Clock.DaysFromCivil(d.value.year, d.value.month, d.value.day);
      Clock.MidnightOfDay(n);
      At(n * Clock.MsPerDay)
    else InvalidDate
  }

  /** The start of the saved event, or None when there is no date. */
  function StartOf(f: Fields): (r: Option<Stamp>)
    ensures r.Some? <==> f.date != ""
  {
    if f.date != "" && f.timeStart != "" then Some(DateTimeStamp(f.date, f.timeStart))
    else if f.date != "" then Some(DateStamp(f.date))
    else None
  }

  /** The end for a given start: date and end time when both are there, else an hour after the start. */
  function EndOf(f: Fields, start: Stamp): (r: Stamp)
    ensures (f.date == "" || f.timeEnd == "") ==> (r.At? <==> start.At?)
    ensures (f.date == "" || f.timeEnd == "") && start.At? ==> r.t - start.t == Clock.MsPerHour
  {
    if f.date != "" && f.timeEnd != "" then DateTimeStamp(f.date, f.timeEnd)
    else if start.At? then At(start.t + Clock.MsPerHour)
    else InvalidDate
  }

  /** The names of the chosen friends that still exist, in selection order. */
  function SelectedNames(ids: seq<string>, friends: seq<Friend>): (r: seq<string>)
    ensures |r| <= |ids|
    decreases |ids|
  {
    if |ids| == 0 then []
    else
      var before := SelectedNames(ids[..|ids| - 1], friends);
      var friend := FriendById(friends, ids[|ids| - 1]);
      if friend.Some? then before + [friend.value.name] else before
  }

  /** The error texts the save path writes for trimmed title, raw date and times, and trimmed location. */
  function ErrorsOf(f: Fields, choices: seq<CalendarUtils.LocationChoice>): (r: Errors)
    ensures r.title != "" <==> Trim(f.title) == ""
  {
    Errors(if Trim(f.title) == "" then TitleMissingMessage else "",
           CalendarUtils.ValidateTimeRange(f.date, f.timeStart, f.timeEnd).message,
           CalendarUtils.ValidateLocationValue(Trim(f.location), choices).message)
  }

  /** The form passes the three checks exactly when no error text is set. */
  predicate FormValid(f: Fields, choices: seq<CalendarUtils.LocationChoice>) {
    Trim(f.title) != ""
    && CalendarUtils.ValidateTimeRange(f.date, f.timeStart, f.timeEnd).valid
    && CalendarUtils.ValidateLocationValue(Trim(f.location), choices).valid
  }

  lemma ErrorsOfSpec(f: Fields, choices: seq<CalendarUtils.LocationChoice>)
    ensures FormValid(f, choices) <==> ErrorsOf(f, choices) == NoErrors
    ensures Trim(f.title) == "" <==> ErrorsOf(f, choices).title == TitleMissingMessage
  {
  }

  /**
   * With a date and no end time, the saved end is one hour after the start;
   * with a date and both times, start and end are those date-times.
   */
  lemma SavedTimes(f: Fields)
    requires f.date != ""
    ensures StartOf(f).Some?
    ensures f.timeEnd == "" && StartOf(f).value.At? ==> EndOf(f, StartOf(f).value) == At(StartOf(f).value.t + Clock.MsPerHour)
    ensures f.timeStart != "" && f.timeEnd != "" ==>
      StartOf(f).value == DateTimeStamp(f.date, f.timeStart) && EndOf(f, StartOf(f).value) == DateTimeStamp(f.date, f.timeEnd)
  {
  }

  /** Each chosen id that still names a friend contributes that friend's name, and nothing else is listed. */
  lemma {:induction false} SelectedNamesSpec(ids: seq<string>, friends: seq<Friend>)
    ensures |SelectedNames(ids, friends)| <= |ids|
    ensures (forall id :: id in ids ==> FriendById(friends, id).Some?) ==>
      (|SelectedNames(ids, friends)| == |ids|
       && forall i :: 0 <= i < |ids| ==> SelectedNames(ids, friends)[i] == FriendById(friends, ids[i]).value.name)
    decreases |ids|
  {
    if |ids| > 0 {
      var init := ids[..|ids| - 1];
      SelectedNamesSpec(init, friends);
      assert forall id :: id in init ==> id in ids;
    }
  }

  /** Friends whose names are clean invite names and each the first friend under its own name. */
  predicate NamesIdentifyFriends(friends: seq<Friend>) {
    forall f :: f in friends ==>
      f.name != "" && ',' !in f.name && Trim(f.name) == f.name && FriendNamed(friends, f.name) == Some(f)
  }

  lemma {:induction false} PrefillOfSelectedNames(ids: seq<string>, friends: seq<Friend>)
    requires NamesIdentifyFriends(friends)
    requires NoDuplicates(ids)
    requires forall id :: id in ids ==> FriendById(friends, id).Some?
    ensures PrefillIds(SelectedNames(ids, friends), friends) == ids
    decreases |ids|
  {
    if |ids| > 0 {
      var init, last := ids[..|ids| - 1], ids[|ids| - 1];
      assert ids == init + [last];
      assert forall id :: id in init ==> id in ids;
      assert last !in init;
      PrefillOfSelectedNames(init, friends);
      var names := SelectedNames(ids, friends);
      var friend := FriendById(friends, last).value;
      assert names == SelectedNames(init, friends) + [friend.name];
      assert names[..|names| - 1] == SelectedNames(init, friends);
      assert FriendNamed(friends, friend.name) == Some(friend);
    }
  }

  /**
   * Saving and reopening restores the selection: the invite text a save
   * writes for a duplicate-free selection of existing friends reads back, in
   * `open`, as the same ids in the same order, when friend names are clean
   * and each names one friend.
   */
  lemma SaveThenOpenRestoresSelection(ids: seq<string>, friends: seq<Friend>)
    requires NamesIdentifyFriends(friends)
    requires NoDuplicates(ids)
    requires forall id :: id in ids ==> FriendById(friends, id).Some?
    ensures PrefillIds(InviteNames(Join(SelectedNames(ids, friends), ", ")), friends) == ids
  {
    var names := SelectedNames(ids, friends);
    SelectedNamesSpec(ids, friends);
    forall n | n in names ensures n != "" && ',' !in n && Trim(n) == n {
      var i :| 0 <= i < |names| && names[i] == n;
      assert FriendById(friends, ids[i]).value in friends;
    }
    CalendarUtils.InviteNamesOfJoin(names);
    PrefillOfSelectedNames(ids, friends);
  }

  // ---------------------------------------------------------------------
  // The form
  // ---------------------------------------------------------------------

  /** The field values `open` writes. */
  function OpenedFields(startPreset: Option<Clock.Instant>, endPreset: Option<Clock.Instant>, eventData: Option<Event>)
    : Fields
  {
    var times := CalendarUtils.ComputeModalDateTimeValues(startPreset, endPreset, eventData);
    match eventData
    case None => Fields("", times.dateValue, times.startTimeValue, times.endTimeValue, "", "", DefaultEmoji)
    case Some(event) =>
      Fields(event.name, times.dateValue, times.startTimeValue, times.endTimeValue, event.location, event.description,
             if event.emoji != "" then event.emoji else DefaultEmoji)
  }

  /**
   * `open` fills the title from the event's `name`, the place, the notes and
   * the emoji (the calendar emoji when it has none) from the event, and the
   * date and the times from the presets: the start time reads back as the
   * opening instant's minute of the day.
   */
  lemma OpenedFieldsSpec(startPreset: Option<Clock.Instant>, endPreset: Option<Clock.Instant>, eventData: Option<Event>)
    ensures var f := OpenedFields(startPreset, endPreset, eventData);
      f.date == CalendarUtils.ToLocalDateInputValue(CalendarUtils.ModalStart(startPreset, eventData))
      && CalendarUtils.ParseTimeInput(f.timeStart) == Some(Clock.MinuteOfDay(CalendarUtils.ModalStart(startPreset, eventData)))
      && (eventData.None? ==> f.title == "" && f.location == "" && f.description == "" && f.emoji == DefaultEmoji)
      && (eventData.Some? ==>
            (f.title == eventData.value.name && f.location == eventData.value.location
             && f.description == eventData.value.description
             && f.emoji == (if eventData.value.emoji != "" then eventData.value.emoji else DefaultEmoji)))
  {
  }

  class EventModal {
    const storage: GlobalStorage
    /** The id of the event being edited; None when creating. */
    var editingEventId: Option<string>
    var selectedFriendIds: seq<string>
    var locationChoices: seq<CalendarUtils.LocationChoice>
    /** Whether the opener passed an `onSave` function. */
    var hasOnSave: bool
    var fields: Fields
    var errors: Errors

    /** The selection never holds an id twice, and an edit id is never empty. */
    predicate Valid()
      reads this
    {
      NoDuplicates(selectedFriendIds) && (editingEventId.Some? ==> editingEventId.value != "")
    }

    constructor(storage: GlobalStorage)
      ensures this.storage == storage && Valid()
      ensures editingEventId == None && selectedFriendIds == [] && locationChoices == []
      ensures !hasOnSave && fields == EmptyFields && errors == NoErrors
    {
      this.storage := storage;
      editingEventId := None;
      selectedFriendIds := [];
      locationChoices := [];
      hasOnSave := false;
      fields := EmptyFields;
      errors := NoErrors;
    }

    /**
     * `open`: edit mode with the event's id exactly when the event has a
     * non-empty id; the selection is prefilled from the event's invite; the
     * fields come from the event (its `name` is the title) and the presets.
     */
    method Open(startPreset: Option<Clock.Instant>, endPreset: Option<Clock.Instant>,
                eventData: Option<Event>, onSave: bool)
      modifies this
      ensures Valid()
      ensures eventData.Some? && eventData.value.id != "" ==> editingEventId == Some(eventData.value.id)
      ensures !(eventData.Some? && eventData.value.id != "") ==> editingEventId == None
      ensures selectedFriendIds ==
        if eventData.Some? && eventData.value.invite != "" then PrefillIds(InviteNames(eventData.value.invite), storage.friends)
        else []
      ensures locationChoices == CalendarUtils.LocationChoices(storage.buildings.GetOr([]))
      ensures hasOnSave == onSave && errors == NoErrors
      ensures fields == OpenedFields(startPreset, endPreset, eventData)
    {
      var buildings := storage.GetBuildings();
      var choices := CalendarUtils.BuildLocationChoices(buildings.GetOr([]));
      var friends := storage.GetFriends();
      var ids := SelectionFor(eventData, friends);
      var initial := OpenedFields(startPreset, endPreset, eventData);
      var editing := if eventData.Some? && eventData.value.id != "" then Some(eventData.value.id) else None;
      Show(choices, onSave, editing, ids, initial);
    }

    /** Writes the whole state `open` sets up, with no error text shown. */
    method Show(choices: seq<CalendarUtils.LocationChoice>, onSave: bool, editing: Option<string>,
                ids: seq<string>, initial: Fields)
      modifies this
      ensures locationChoices == choices && hasOnSave == onSave && editingEventId == editing
      ensures selectedFriendIds == ids && fields == initial && errors == NoErrors
    {
      locationChoices, hasOnSave, editingEventId, selectedFriendIds := choices, onSave, editing, ids;
      errors, fields := NoErrors, initial;
    }

    /** `close`: leaves edit mode, empties the selection, the fields and the error texts. */
    method Close()
      modifies this
      ensures Valid()
      ensures editingEventId == None && selectedFriendIds == [] && fields == EmptyFields && errors == NoErrors
      ensures locationChoices == old(locationChoices) && hasOnSave == old(hasOnSave)
    {
      fields := EmptyFields;
      errors := NoErrors;
      editingEventId := None;
      selectedFriendIds := [];
    }

    /** A click on an invite option: a non-empty id not yet chosen is appended. */
    method AddFriend(friendId: string)
      requires Valid()
      modifies this
      ensures Valid()
      ensures selectedFriendIds ==
        if friendId != "" && friendId !in old(selectedFriendIds) then old(selectedFriendIds) + [friendId]
        else old(selectedFriendIds)
      ensures editingEventId == old(editingEventId) && fields == old(fields) && errors == old(errors)
      ensures locationChoices == old(locationChoices) && hasOnSave == old(hasOnSave)
    {
      if friendId != "" && friendId !in selectedFriendIds {
        selectedFriendIds := selectedFriendIds + [friendId];
      }
    }

    /** A click on a tag's remove button: every copy of a non-empty id is filtered out. */
    method RemoveFriend(friendId: string)
      requires Valid()
      modifies this
      ensures Valid()
      ensures selectedFriendIds == if friendId != "" then Without(old(selectedFriendIds), friendId) else old(selectedFriendIds)
      ensures friendId !in selectedFriendIds || friendId == ""
      ensures editingEventId == old(editingEventId) && fields == old(fields) && errors == old(errors)
      ensures locationChoices == old(locationChoices) && hasOnSave == old(hasOnSave)
    {
      if friendId != "" {
        WithoutSpec(selectedFriendIds, friendId);
        selectedFriendIds := Without(selectedFriendIds, friendId);
      }
    }

    /** A click on a location option writes its text into the location input. */
    method PickLocation(choice: CalendarUtils.LocationChoice)
      modifies this
      ensures fields == old(fields).(location := PickedLocationValue(choice))
      ensures errors == old(errors).(location := "")
      ensures editingEventId == old(editingEventId) && selectedFriendIds == old(selectedFriendIds)
      ensures locationChoices == old(locationChoices) && hasOnSave == old(hasOnSave)
    {
      fields := fields.(location := PickedLocationValue(choice));
      errors := errors.(location := "");
    }

    /**
     * `saveEventFromModal`: the error texts are set from the three checks;
     * an invalid form, or a form with no date, keeps everything else as it
     * was and saves nothing. Otherwise the form closes and `onSave`, when
     * given, receives the trimmed values, the start and end, and the invite
     * made of the names of the chosen friends that still exist.
     */
    method SaveEventFromModal() returns (saved: Option<FormData>)
      requires Valid()
      modifies this
      ensures Valid()
      ensures locationChoices == old(locationChoices) && hasOnSave == old(hasOnSave)
      ensures var f := old(fields);
        if !FormValid(f, locationChoices) || StartOf(f).None? then
          saved == None && errors == ErrorsOf(f, locationChoices)
          && fields == f && editingEventId == old(editingEventId) && selectedFriendIds == old(selectedFriendIds)
        else
          editingEventId == None && selectedFriendIds == [] && fields == EmptyFields && errors == NoErrors
          && (hasOnSave ==> saved == Some(FormData(
                old(editingEventId), Trim(f.title), if f.emoji != "" then f.emoji else DefaultEmoji,
                f.date, f.timeStart, f.timeEnd, StartOf(f).value, EndOf(f, StartOf(f).value),
                Trim(f.location), Trim(f.description),
                Join(SelectedNames(old(selectedFriendIds), storage.friends), ", "), old(selectedFriendIds))))
          && (!hasOnSave ==> saved == None)
    {
      var f := fields;
      errors := ErrorsOf(f, locationChoices);
      if !FormValid(f, locationChoices) {
        return None;
      }
      var start := StartOf(f);
      if start.None? {
        return None;
      }
      var friends := storage.GetFriends();
      var invite := Join(SelectedNames(selectedFriendIds, friends), ", ");
      var data := FormData(editingEventId, Trim(f.title), if f.emoji != "" then f.emoji else DefaultEmoji,
                           f.date, f.timeStart, f.timeEnd, start.value, EndOf(f, start.value),
                           Trim(f.location), Trim(f.description), invite, selectedFriendIds);
      Close();
      saved := if hasOnSave then Some(data) else None;
    }
  }
}
