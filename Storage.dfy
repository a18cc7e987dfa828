/**
 * `GlobalStorage`: the in-memory store shared by the pages. It holds the
 * events, the direct-message threads, the friends, the buildings data and the
 * single "last change" slot used for undo. Arrays are values here, so the
 * `slice()` copies the getters and setters make are implicit: no caller can
 * alias the stored sequence.
 */
module Storage {
  import opened Wrappers
  import opened Entities
  import LoadData

  class GlobalStorage {
    var events: seq<Event>
    var messages: seq<Dm>
    /** `null` until sample buildings data is loaded. */
    var buildings: Option<seq<BuildingEntry>>
    var friends: seq<Friend>
    var lastEvent: Option<ChangeRecord>

    /** The initial `data` object: empty lists, no buildings, an empty slot. */
    constructor()
      ensures events == [] && messages == [] && buildings == None && friends == [] && lastEvent == None
    {
      events := [];
      messages := [];
      buildings := None;
      friends := [];
      lastEvent := None;
    }

    /**
     * `init`: each sample global that is defined replaces its field with the
     * processed data; an undefined one leaves its field as it was.
     */
    method Init(sampleEvents: Option<seq<LoadData.SampleEvent>>, sampleMessages: Option<seq<LoadData.SampleDm>>,
                sampleFriends: Option<seq<Friend>>, sampleBuildings: Option<seq<BuildingEntry>>)
      modifies this
      ensures events == if sampleEvents.Some? then LoadData.ProcessEvents(sampleEvents.value) else old(events)
      ensures messages == if sampleMessages.Some? then LoadData.ProcessMessages(sampleMessages.value) else old(messages)
      ensures friends == if sampleFriends.Some? then LoadData.ProcessFriends(sampleFriends.value) else old(friends)
      ensures buildings == if sampleBuildings.Some? then Some(LoadData.ProcessBuildings(sampleBuildings.value)) else old(buildings)
      ensures lastEvent == old(lastEvent)
    {
      if sampleEvents.Some? {
        events := LoadData.ProcessEvents(sampleEvents.value);
      }
      if sampleMessages.Some? {
        messages := LoadData.ProcessMessages(sampleMessages.value);
      }
      if sampleFriends.Some? {
        friends := LoadData.ProcessFriends(sampleFriends.value);
      }
      if sampleBuildings.Some? {
        buildings := Some(LoadData.ProcessBuildings(sampleBuildings.value));
      }
    }

    /** `getEvents`: a copy of the stored events. */
    method GetEvents() returns (r: seq<Event>)
      ensures r == events
    {
      r := events;
    }

    /** `setEvents`: stores a copy of an array, or an empty list for anything else; nothing else changes. */
    method SetEvents(xs: MaybeList<Event>)
      modifies this
      ensures events == (if xs.List? then xs.items else [])
      ensures messages == old(messages) && friends == old(friends)
      ensures buildings == old(buildings) && lastEvent == old(lastEvent)
    {
      events := xs.Items();
    }

    /** `getMessages`: a copy of the stored threads. */
    method GetMessages() returns (r: seq<Dm>)
      ensures r == messages
    {
      r := messages;
    }

    /** `setMessages`: stores a copy of an array, or an empty list for anything else; nothing else changes. */
    method SetMessages(xs: MaybeList<Dm>)
      modifies this
      ensures messages == (if xs.List? then xs.items else [])
      ensures events == old(events) && friends == old(friends)
      ensures buildings == old(buildings) && lastEvent == old(lastEvent)
    {
      messages := xs.Items();
    }

    /** `getBuildings`: the buildings data as stored (possibly `null`). */
    method GetBuildings() returns (r: Option<seq<BuildingEntry>>)
      ensures r == buildings
    {
      r := buildings;
    }

    /** `getFriends`: a copy of the stored friends. */
    method GetFriends() returns (r: seq<Friend>)
      ensures r == friends
    {
      r := friends;
    }

    /** `getLastEvent`: the slot's record, or `null` when it is empty. */
    method GetLastEvent() returns (r: Option<ChangeRecord>)
      ensures r == lastEvent
    {
      r := lastEvent;
    }

    /** `setLastEvent`: a record fills the slot, a missing one empties it; nothing else changes. */
    method SetLastEvent(record: Option<ChangeRecord>)
      modifies this
      ensures lastEvent == record
      ensures events == old(events) && messages == old(messages)
      ensures friends == old(friends) && buildings == old(buildings)
    {
      lastEvent := record;
    }

    /** `clearLastEvent`: empties the slot and touches nothing else. */
    method ClearLastEvent()
      modifies this
      ensures lastEvent == None
      ensures events == old(events) && messages == old(messages)
      ensures friends == old(friends) && buildings == old(buildings)
    {
      lastEvent := None;
    }
  }
}
