/**
 * The data side of the messages page (`js/pages/messages.js`): the page's
 * copy of the threads, the open thread, and the operations that edit them in
 * place and write them back to the store: choosing the thread to show,
 * sending a message, answering an invitation and sending one.
 */
module MessagesPage {
  import opened Wrappers
  import opened Text
  import opened Entities
  import opened Storage
  import MessageUtils
  import CalendarUtils

  /** `events.find((m) => m.id === id)`, as an index: the first event with the id. */
  function FirstEventIndex(events: seq<Event>, id: string): (r: Option<nat>)
    ensures r.Some? ==> (r.value < |events| && events[r.value].id == id
                         && forall j :: 0 <= j < r.value ==> events[j].id != id)
    ensures r.None? ==> forall j :: 0 <= j < |events| ==> events[j].id != id
    decreases |events|
  {
    if |events| == 0 then None
    else if events[0].id == id then Some(0)
    else
      var r := FirstEventIndex(events[1..], id);
      if r.Some? then Some(r.value + 1) else None
  }

  /** `this.dms.find((d) => d.id === id)`, as an index: the first thread with the id. */
  function FirstDmIndex(dms: seq<Dm>, id: string): (r: Option<nat>)
    ensures r.Some? ==> (r.value < |dms| && dms[r.value].id == id
                         && forall j :: 0 <= j < r.value ==> dms[j].id != id)
    ensures r.None? ==> forall j :: 0 <= j < |dms| ==> dms[j].id != id
    decreases |dms|
  {
    if |dms| == 0 then None
    else if dms[0].id == id then Some(0)
    else
      var r := FirstDmIndex(dms[1..], id);
      if r.Some? then Some(r.value + 1) else None
  }

  /** The user thread a group member id points at, if any. */
  function MemberDm(dms: seq<Dm>, memberId: string): (r: Option<Dm>)
    ensures r.Some? ==> r.value in dms && r.value.id == memberId && r.value.kind == "user"
    ensures r.None? ==> forall d :: d in dms ==> !(d.id == memberId && d.kind == "user")
    decreases |dms|
  {
    if |dms| == 0 then None
    else if dms[0].id == memberId && dms[0].kind == "user" then Some(dms[0])
    else MemberDm(dms[1..], memberId)
  }

  /** Adds a name unless it is already listed, ignoring case. */
  function AddIfAbsent(names: seq<string>, who: string): seq<string> {
    if MessageUtils.NamedIn(names, who) then names else names + [who]
  }

  /** The group branch: each member with a user thread, in member order, adds that thread's name. */
  function WithMembers(names: seq<string>, members: seq<string>, dms: seq<Dm>): seq<string>
    decreases |members|
  {
    if |members| == 0 then names
    else
      var before := WithMembers(names, members[..|members| - 1], dms);
      var memberDm := MemberDm(dms, members[|members| - 1]);
      if memberDm.Some? then AddIfAbsent(before, memberDm.value.name) else before
  }

  /** The invite list `sendInvitation` stores for an event sent into a thread. */
  function InvitedNames(event: Event, dm: Dm, dms: seq<Dm>, userName: string): (r: seq<string>)
    ensures var names := InviteNames(event.invite); |names| <= |r| && r[..|names|] == names
    ensures dm.kind != "group" ==> MessageUtils.NamedIn(r, userName)
  {
    var names := InviteNames(event.invite);
    WithMembersKeeps(names, dm.members, dms);
    AddIfAbsentSpec(names, userName);
    if dm.kind == "group" then WithMembers(names, dm.members, dms) else AddIfAbsent(names, userName)
  }

  /** The thread after an invitation to `event` is posted into it. */
  function WithInvitation(dm: Dm, eventId: string, event: Event): (r: Dm)
    ensures r.(messages := dm.messages, lastMessage := dm.lastMessage, lastMessageTime := dm.lastMessageTime) == dm
    ensures |r.messages| == |dm.messages| + 1 && r.messages[..|dm.messages|] == dm.messages
    ensures var last := r.messages[|dm.messages|];
      last.author == "You" && last.kind == "invitation" && last.event == Some(event) && last.eventId == Some(eventId)
      && last.timestamp == MessageUtils.CurrentDate
    ensures StartsWith(r.lastMessage, "You: sent an invitation to ")
    ensures r.lastMessage == "You: sent an invitation to " + (if event.name != "" then event.name else event.title)
    ensures r.lastMessageTime == MessageUtils.CurrentDate
  {
    var invitation := Message("You", "", "invitation", Some(eventId), Some(event), MessageUtils.CurrentDate, "", None);
    dm.(messages := dm.messages + [invitation],
        lastMessage := "You: sent an invitation to " + (if event.name != "" then event.name else event.title),
        lastMessageTime := MessageUtils.CurrentDate)
  }

  /** The thread after the user sends a text. */
  function WithText(dm: Dm, text: string): (r: Dm)
    ensures r.(messages := dm.messages, lastMessage := dm.lastMessage, lastMessageTime := dm.lastMessageTime) == dm
    ensures |r.messages| == |dm.messages| + 1 && r.messages[..|dm.messages|] == dm.messages
    ensures r.messages[|dm.messages|].author == "You" && r.messages[|dm.messages|].text == text
    ensures r.messages[|dm.messages|].timestamp == MessageUtils.CurrentDate
    ensures r.lastMessage == "You: " + text
    ensures r.lastMessageTime == MessageUtils.CurrentDate
  {
    var message := Message("You", text, "", None, None, MessageUtils.CurrentDate, "", None);
    dm.(messages := dm.messages + [message], lastMessage := "You: " + text, lastMessageTime := MessageUtils.CurrentDate)
  }

  /** The thread after its message at `index` is answered. */
  function WithResponse(dm: Dm, index: nat, response: string): (r: Dm)
    requires index < |dm.messages|
    ensures r.(messages := dm.messages) == dm && |r.messages| == |dm.messages|
    ensures forall i :: 0 <= i < |dm.messages| && i != index ==> r.messages[i] == dm.messages[i]
    ensures r.messages[index].(response := dm.messages[index].response, responseTime := dm.messages[index].responseTime)
      == dm.messages[index]
    ensures r.messages[index].response == response && r.messages[index].responseTime.Some?
  {
    dm.(messages := dm.messages[index := dm.messages[index].(response := response, responseTime := Some(MessageUtils.CurrentDate))])
  }

  /**
   * Where `sendInvitation` acts: the stored event and the open thread, or
   * nothing when there is no open thread, no event id, or either is unknown.
   */
  function InvitationTarget(dms: seq<Dm>, currentDmId: Option<string>, events: seq<Event>, eventId: Option<string>)
    : Option<(nat, nat)>
  {
    if currentDmId.None? || currentDmId.value == "" || eventId.None? || eventId.value == "" then None
    else
      var ei, di := FirstEventIndex(events, eventId.value), FirstDmIndex(dms, currentDmId.value);
      if ei.Some? && di.Some? then Some((ei.value, di.value)) else None
  }

  class MessagesPage {
    const storage: GlobalStorage
    /** The page's own copy of the threads. */
    var dms: seq<Dm>
    var currentDmId: Option<string>

    constructor(storage: GlobalStorage)
      ensures this.storage == storage && dms == [] && currentDmId == None
    {
      this.storage := storage;
      dms := [];
      currentDmId := None;
    }

    /** `init`'s data part: without the page container nothing happens; otherwise the threads are loaded and none is open. */
    method Init(hasContainer: bool)
      modifies this
      ensures !hasContainer ==> dms == old(dms) && currentDmId == old(currentDmId)
      ensures hasContainer ==> dms == storage.messages && currentDmId == None
    {
      if !hasContainer {
        return;
      }
      var stored := storage.GetMessages();
      dms := MessageUtils.BuildDmsFromStorage(stored);
      MessageUtils.BuildDmsIsCopy(stored);
      currentDmId := None;
    }

    /** `selectDm`: a known thread id becomes the open one; an unknown id changes nothing. */
    method SelectDm(dmId: string)
      modifies this
      ensures dms == old(dms)
      ensures FirstDmIndex(dms, dmId).Some? ==> currentDmId == Some(dmId)
      ensures FirstDmIndex(dms, dmId).None? ==> currentDmId == old(currentDmId)
    {
      if FirstDmIndex(dms, dmId).None? {
        return;
      }
      currentDmId := Some(dmId);
    }

    /**
     * `showDmView`: an open, known thread stays open; otherwise the thread
     * with the newest message is opened, when there is any thread.
     */
    method ShowDmView()
      modifies this
      ensures dms == old(dms)
      ensures old(currentDmId).Some? && old(currentDmId).value != "" && FirstDmIndex(dms, old(currentDmId).value).Some?
        ==> currentDmId == old(currentDmId)
      ensures !(old(currentDmId).Some? && old(currentDmId).value != "" && FirstDmIndex(dms, old(currentDmId).value).Some?)
        ==> currentDmId == if |dms| > 0 then Some(MessageUtils.SortByRecency(dms)[0].id) else old(currentDmId)
      ensures (!(old(currentDmId).Some? && old(currentDmId).value != "" && FirstDmIndex(dms, old(currentDmId).value).Some?)
               && |dms| > 0)
        ==> (exists d :: d in dms && currentDmId == Some(d.id)
                      && forall e :: e in dms ==> d.lastMessageTime >= e.lastMessageTime)
    {
      if currentDmId.Some? && currentDmId.value != "" && FirstDmIndex(dms, currentDmId.value).Some? {
        return;
      }
      if |dms| > 0 {
        var sorted := MessageUtils.SortByRecency(dms);
        MessageUtils.NewestIsFirst(dms);
        var newest := sorted[0];
        var i :| 0 <= i < |dms| && dms[i] == newest;
        assert FirstDmIndex(dms, newest.id).Some?;
        SelectDm(newest.id);
      }
    }

    /**
     * `sendMessage`: with an open, known thread and a non-blank input, the
     * trimmed text is appended to that thread as the user's message and the
     * threads are stored; otherwise nothing changes. The event list and the
     * last-change slot are never touched.
     */
    method SendMessage(input: Option<string>)
      modifies this, storage
      ensures currentDmId == old(currentDmId)
      ensures storage.events == old(storage.events) && storage.lastEvent == old(storage.lastEvent)
      ensures storage.friends == old(storage.friends) && storage.buildings == old(storage.buildings)
      ensures var k := if old(currentDmId).Some? then FirstDmIndex(old(dms), old(currentDmId).value) else None;
        if old(currentDmId).Some? && old(currentDmId).value != "" && input.Some? && Trim(input.value) != "" && k.Some?
        then dms == old(dms)[k.value := WithText(old(dms)[k.value], Trim(input.value))] && storage.messages == dms
        else dms == old(dms) && storage.messages == old(storage.messages)
    {
      if currentDmId.None? || currentDmId.value == "" || input.None? {
        return;
      }
      var text := Trim(input.value);
      if text == "" {
        return;
      }
      var k := FirstDmIndex(dms, currentDmId.value);
      if k.None? {
        return;
      }
      dms := dms[k.value := WithText(dms[k.value], text)];
      storage.SetMessages(List(dms));
    }

    /**
     * `handleInvitationResponse` on the thread at `dm` (the open thread the
     * page rendered): an in-range invitation message records the response
     * and the time, and the threads are stored; anything else changes nothing.
     */
    method HandleInvitationResponse(dm: Option<nat>, messageIndex: int, response: string)
      requires dm.Some? ==> dm.value < |dms|
      modifies this, storage
      ensures currentDmId == old(currentDmId)
      ensures storage.events == old(storage.events) && storage.lastEvent == old(storage.lastEvent)
      ensures storage.friends == old(storage.friends) && storage.buildings == old(storage.buildings)
      ensures if dm.Some? && 0 <= messageIndex < |old(dms)[dm.value].messages|
                 && old(dms)[dm.value].messages[messageIndex].kind == "invitation"
        then dms == old(dms)[dm.value := WithResponse(old(dms)[dm.value], messageIndex, response)] && storage.messages == dms
        else dms == old(dms) && storage.messages == old(storage.messages)
    {
      if dm.None? || messageIndex < 0 || messageIndex >= |dms[dm.value].messages| {
        return;
      }
      var thread := dms[dm.value];
      if thread.messages[messageIndex].kind != "invitation" {
        return;
      }
      dms := dms[dm.value := WithResponse(thread, messageIndex, response)];
      storage.SetMessages(List(dms));
    }

    /**
     * `sendInvitation`: the event's invite list gains the user (one-to-one)
     * or each member's name (group) unless already listed; the event is
     * stored back at its own index, the invitation is posted into the open
     * thread, and the threads are stored. The last-change slot is untouched.
     */
    method SendInvitation(userName: string, eventId: Option<string>)
      modifies this, storage
      ensures currentDmId == old(currentDmId) && storage.lastEvent == old(storage.lastEvent)
      ensures storage.friends == old(storage.friends) && storage.buildings == old(storage.buildings)
      ensures var target := InvitationTarget(old(dms), old(currentDmId), old(storage.events), eventId);
        if target.None? then
          dms == old(dms) && storage.events == old(storage.events) && storage.messages == old(storage.messages)
        else
          var ei, di := target.value.0, target.value.1;
          var event := old(storage.events)[ei].(invite := Join(InvitedNames(old(storage.events)[ei], old(dms)[di], old(dms), userName), ", "));
          storage.events == old(storage.events)[ei := event]
          && dms == old(dms)[di := WithInvitation(old(dms)[di], eventId.value, event)]
          && storage.messages == dms
    {
      if currentDmId.None? || currentDmId.value == "" || eventId.None? || eventId.value == "" {
        return;
      }
      var events := storage.GetEvents();
      var ei := FirstEventIndex(events, eventId.value);
      if ei.None? {
        return;
      }
      var di := FirstDmIndex(dms, currentDmId.value);
      if di.None? {
        return;
      }
      var event := events[ei.value];
      var thread := dms[di.value];
      var inviteList := InviteNames(event.invite);
      if thread.kind == "group" {
        inviteList := AddMembers(inviteList, thread.members, dms);
      } else if !MessageUtils.NamedIn(inviteList, userName) {
        inviteList := inviteList + [userName];
      }
      event := event.(invite := Join(inviteList, ", "));
      // The event is stored back at the index it was found at (the first with its id).
      events := events[ei.value := event];
      storage.SetEvents(List(events));
      dms := dms[di.value := WithInvitation(thread, eventId.value, event)];
      storage.SetMessages(List(dms));
    }
  }

  /** The group loop: each member id that resolves to a user thread pushes that name if absent. */
  method AddMembers(names: seq<string>, members: seq<string>, dms: seq<Dm>) returns (r: seq<string>)
    ensures r == WithMembers(names, members, dms)
  {
    r := names;
    var i := 0;
    while i < |members|
      invariant 0 <= i <= |members|
      invariant r == WithMembers(names, members[..i], dms)
    {
      var memberDm := MemberDm(dms, members[i]);
      if memberDm.Some? && !MessageUtils.NamedIn(r, memberDm.value.name) {
        r := r + [memberDm.value.name];
      }
      assert members[..i + 1][..i] == members[..i];
      i := i + 1;
    }
    assert members[..i] == members;
  }

  /** Adding keeps the list, names the person afterwards, and adds at most that one name. */
  lemma AddIfAbsentSpec(names: seq<string>, who: string)
    ensures var r := AddIfAbsent(names, who);
      MessageUtils.NamedIn(r, who) && r[..|names|] == names && |names| <= |r| <= |names| + 1
      && (MessageUtils.NamedIn(names, who) <==> r == names)
      && (r != names ==> r[|names|] == who)
  {
    var r := AddIfAbsent(names, who);
    if !MessageUtils.NamedIn(names, who) {
      assert Lower(r[|names|]) == Lower(who);
    }
  }

  /** A name that some member id resolves to through its user thread. */
  predicate IsMemberName(members: seq<string>, dms: seq<Dm>, n: string) {
    exists m :: m in members && MemberDm(dms, m).Some? && n == MemberDm(dms, m).value.name
  }

  /** The group branch keeps every name already listed, in place. */
  lemma {:induction false} WithMembersKeeps(names: seq<string>, members: seq<string>, dms: seq<Dm>)
    ensures var r := WithMembers(names, members, dms);
      |names| <= |r| && r[..|names|] == names
    decreases |members|
  {
    if |members| > 0 {
      var init := members[..|members| - 1];
      WithMembersKeeps(names, init, dms);
      var before := WithMembers(names, init, dms);
      var memberDm := MemberDm(dms, members[|members| - 1]);
      if memberDm.Some? {
        AddIfAbsentSpec(before, memberDm.value.name);
      }
    }
  }

  /** The group branch ends up naming every member that has a user thread. */
  lemma {:induction false} WithMembersNamesAll(names: seq<string>, members: seq<string>, dms: seq<Dm>)
    ensures forall m :: m in members && MemberDm(dms, m).Some? ==>
      MessageUtils.NamedIn(WithMembers(names, members, dms), MemberDm(dms, m).value.name)
    decreases |members|
  {
    if |members| > 0 {
      var init, last := members[..|members| - 1], members[|members| - 1];
      WithMembersNamesAll(names, init, dms);
      var before := WithMembers(names, init, dms);
      var r := WithMembers(names, members, dms);
      assert members == init + [last];
      if MemberDm(dms, last).Some? {
        AddIfAbsentSpec(before, MemberDm(dms, last).value.name);
      }
      forall m | m in members && MemberDm(dms, m).Some?
        ensures MessageUtils.NamedIn(r, MemberDm(dms, m).value.name)
      {
        if m != last {
          assert m in init;
          var j :| 0 <= j < |before| && Lower(before[j]) == Lower(MemberDm(dms, m).value.name);
          assert r[j] == before[j];
        }
      }
    }
  }

  /** Each name the group branch adds is one a member resolves to. */
  lemma {:induction false} WithMembersAddsOnlyMembers(names: seq<string>, members: seq<string>, dms: seq<Dm>)
    ensures forall k :: |names| <= k < |WithMembers(names, members, dms)| ==>
      IsMemberName(members, dms, WithMembers(names, members, dms)[k])
    decreases |members|
  {
    if |members| > 0 {
      var init, last := members[..|members| - 1], members[|members| - 1];
      WithMembersAddsOnlyMembers(names, init, dms);
      var before := WithMembers(names, init, dms);
      var r := WithMembers(names, members, dms);
      assert members == init + [last];
      var memberDm := MemberDm(dms, last);
      if memberDm.Some? {
        AddIfAbsentSpec(before, memberDm.value.name);
      }
      forall k | |names| <= k < |r|
        ensures IsMemberName(members, dms, r[k])
      {
        if k < |before| {
          assert r[k] == before[k];
          assert IsMemberName(init, dms, before[k]);
          var m :| m in init && MemberDm(dms, m).Some? && before[k] == MemberDm(dms, m).value.name;
          assert m in members;
        } else {
          assert r[k] == memberDm.value.name;
          assert last in members;
        }
      }
    }
  }

  /**
   * After an invitation in a one-to-one thread, the stored invite text names
   * the user (a clean name) and keeps every earlier invitee, so the invite
   * list shows the event as "Already in" for that user.
   */
  lemma InvitedUserIsAlreadyIn(event: Event, dm: Dm, dms: seq<Dm>, userName: string)
    requires dm.kind != "group"
    requires userName != "" && ',' !in userName && Trim(userName) == userName
    ensures var e := event.(invite := Join(InvitedNames(event, dm, dms, userName), ", "));
      MessageUtils.InviteOptionOf(e, userName, false).alreadyIn
      && InviteNames(e.invite) == AddIfAbsent(InviteNames(event.invite), userName)
  {
    var names := InviteNames(event.invite);
    var r := AddIfAbsent(names, userName);
    AddIfAbsentSpec(names, userName);
    assert forall n :: n in r ==> n != "" && ',' !in n && Trim(n) == n;
    CalendarUtils.InviteNamesOfJoin(r);
    var text := Join(r, ", ");
    var k :| 0 <= k < |r| && Lower(r[k]) == Lower(userName);
    assert r[k] in NonEmpty(InvitePieces(text));
    var j :| 0 <= j < |InvitePieces(text)| && InvitePieces(text)[j] == r[k];
  }

  /** An answered invitation shows its answer and no buttons. */
  lemma RespondedInvitationView(dm: Dm, index: nat, response: string)
    requires index < |dm.messages| && dm.messages[index].kind == "invitation" && dm.messages[index].event.Some?
    requires MessageUtils.HasResponse(response)
    ensures var v := MessageUtils.InvitationOf(WithResponse(dm, index, response).messages[index]);
      v.Some? && !v.value.showButtons
      && v.value.responseText == (if response == "accept" then "Accepted" else "Declined")
  {
  }

  /**
   * After an invitation in a group thread, the stored invite text keeps every
   * earlier invitee and names every member that has a user thread, provided
   * the thread names are clean invite names.
   */
  lemma GroupInviteNamesMembers(event: Event, dm: Dm, dms: seq<Dm>, userName: string)
    requires dm.kind == "group"
    requires forall d :: d in dms ==> d.name != "" && ',' !in d.name && Trim(d.name) == d.name
    ensures var before := InviteNames(event.invite);
      var after := InviteNames(Join(InvitedNames(event, dm, dms, userName), ", "));
      |before| <= |after| && after[..|before|] == before
      && forall m :: m in dm.members && MemberDm(dms, m).Some? ==> MessageUtils.NamedIn(after, MemberDm(dms, m).value.name)
  {
    var names := InviteNames(event.invite);
    var r := WithMembers(names, dm.members, dms);
    WithMembersKeeps(names, dm.members, dms);
    WithMembersNamesAll(names, dm.members, dms);
    WithMembersAddsOnlyMembers(names, dm.members, dms);
    forall k | 0 <= k < |r|
      ensures r[k] != "" && ',' !in r[k] && Trim(r[k]) == r[k]
    {
      if k < |names| {
        assert r[k] == names[k];
      } else {
        var m :| m in dm.members && MemberDm(dms, m).Some? && r[k] == MemberDm(dms, m).value.name;
      }
    }
    CalendarUtils.InviteNamesOfJoin(r);
  }
}
