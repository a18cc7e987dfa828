# meetingapp2 event coordinator, in Dafny

This project models the data core of meetingapp2, a browser prototype of a
campus meeting planner with a calendar, a map and direct messages. The model
covers the following.

- **The event change/undo coordinator** (`EventManager`).
  - It applies create, edit, delete and reschedule changes to the stored event list.
  - It remembers the one last change in a single slot of the global store.
  - It shows a snackbar whose undo button reverts that change exactly once.
- **The global store** (`GlobalStorage`). It has one field per collection, plus the last-change slot.
- **The snackbar** (`Snackbar`). It holds the visible message, the invitee notice, the undo handler and the auto-hide timer.
- **The pure helpers the pages rely on.**
  - Date and time input values and the 12-hour clock texts.
  - The invitee notice and the 30-minute time options with rounding to the closest one.
  - Location and time-range validation, and the building location choices.
  - The Overpass-to-GeoJSON conversion and building-name resolution.
  - The ranked map search, title stripping and the star rating.
  - Relative timestamps, DM ordering and the invite-event list.
  - The invitation view and the normalisation of sample data.
- **The data side of the messages page.**
  - Choosing the open thread and sending a message.
  - Answering an invitation and sending one, which edits the event's invite list.
- **The data side of the event form.**
  - Edit-mode detection and the friend selection.
  - Prefill from an invite string, and the invite-option filter.
  - The save path's validation, defaults and invite join, and the reset on close.

### Modelling choices

- **Instants.** Times are `Clock.Instant`, whole milliseconds in local time. Calendar fields come from a closed-form day-number conversion. There are no time zones and no daylight saving time.
- **Text.** Strings are `seq<char>`. `toLowerCase` and `trim` act on ASCII letters and ASCII white space. `localeCompare` is code-point lexicographic order.
- **Plain objects.**
  - Keyed objects (the buildings data) are sequences of `(key, value)` pairs, in key order.
  - Optional fields are `Option` values. An absent string field is `""`.
  - A value that may not be an array is `MaybeList`.
- **Stateful objects.** The page objects that update their own fields are classes: `EventManager`, `GlobalStorage`, `Snackbar`, `MessagesPage` and `EventModal`.
  - Their methods state the whole new state, proved against specification functions.
  - The page callbacks the coordinator calls are tokens, and a trace records every call.
- **Fixed "now".** The prototype fixes "now" in two places, and the model follows the code.
  - `calendarutils.js` fixes it at 6 October 2025 09:30.
  - `messageutils.js` and `loaddata.js` fix it at 09:00.
  - A comment in the first file says 9:00, but its code says 09:30.

## Model

| member | source | states |
|---|---|---|
| EventManager.MessageOfAction | js/eventManager.js:16-36 | The snackbar text for each action: "Event created", "Event saved" and "Event deleted" for create, edit and delete. A reschedule whose `after` has a start gives "Event rescheduled to …". |
| EventManager.UpdatedMessage | js/eventManager.js:16-36 | Every other action, including a reschedule without `after.start`, gives "Event updated". |
| EventManager.BuildMessage | js/eventManager.js:16-36 | Every snackbar text starts with "Event ", whatever the action. |
| EventManager.Without | js/eventManager.js:50-52 | The delete filter keeps exactly the elements with another id, and never adds one. |
| EventManager.WithoutAbsent | js/eventManager.js:50-52 | Filtering an id that is not in the list leaves the list unchanged. |
| EventManager.WithoutPresent | js/eventManager.js:50-52 | Filtering an id that is in the list makes it strictly shorter. |
| EventManager.WithoutAppend | js/eventManager.js:50-52 | The delete filter distributes over appending: filtering `events + [e]` filters each part. |
| EventManager.WithoutMultiset | js/eventManager.js:50-52 | When every element with the id equals `b`, filtering removes exactly the copies of `b` (multiset). |
| EventManager.Replaced | js/eventManager.js:46-48 | The edit map keeps the length of the list. |
| EventManager.Retimed | js/eventManager.js:54-64 | The reschedule map keeps the length of the list. |
| EventManager.ReplacedIds | js/eventManager.js:46-48 | The edit map introduces no id other than `after.id`, and keeps every element with another id. |
| EventManager.RetimedIds | js/eventManager.js:54-64 | The reschedule map introduces no new id, and keeps every element with another id. |
| EventManager.ApplyChangeToEvents | js/eventManager.js:39-67 | The forward change adds at most one element. Its ids are the list's ids plus those of `before`/`after`, and every element whose id is neither of those survives unchanged. |
| EventManager.ApplyUndoToEvents | js/eventManager.js:69-101 | The inverse change adds at most one element. Its ids are the list's ids plus those of `before`/`after`, and every element whose id is neither of those survives unchanged. |
| EventManager.ChangeWithoutMatch | js/eventManager.js:39-67 | A change whose looked-up id is in no element leaves the list unchanged (a create must carry no `after`). So does an unknown action, or a missing `after`/`before`. |
| EventManager.UndoWithoutMatch | js/eventManager.js:69-101 | An undo whose looked-up id is in no element leaves the list unchanged: a create undo whose `after.id`, or an edit or reschedule undo whose `before.id`, matches nothing. So does an unknown action, a create undo without `after`, or any other undo without `before`. |
| EventManager.NotListIsEmpty | js/eventManager.js:40 | A non-array event list behaves as the empty list, for both the change and the undo. |
| EventManager.CreateAppends | js/eventManager.js:42-44 | Create appends `after` at the end of the list. |
| EventManager.CreateUndo | js/eventManager.js:73-76 | Create then undo restores the original list exactly when the new id was not already in it. Otherwise the undo also removes the older events with that id. |
| EventManager.EditReplacesAll | js/eventManager.js:46-48 | Edit replaces every element whose id matches `after.id`, not only the first. It keeps every other element in place. |
| EventManager.EditUndo | js/eventManager.js:78-81 | Undoing an edit with `before` restores the list when every element with the id was `before`. |
| EventManager.EditUndoWithoutBefore | js/eventManager.js:78-81 | Undoing an edit with no `before` changes nothing. |
| EventManager.DeleteUndo | js/eventManager.js:83-86 | Undoing a delete appends `before` at the end of the filtered list. |
| EventManager.DeleteUndoPermutation | js/eventManager.js:50-52 | Delete then undo gives a permutation of the original list when every element with the id was `before`. |
| EventManager.DeleteLastUndo | js/eventManager.js:83-86 | Deleting the last event, whose id appears nowhere earlier, and then undoing restores the list exactly, order included. |
| EventManager.RescheduleKeepsFields | js/eventManager.js:54-64 | Reschedule changes only `start` and `end` of the matching elements. Every other field comes from the stored element, not from `after`. |
| EventManager.RescheduleUndo | js/eventManager.js:88-99 | Undoing a reschedule restores the list when the matching elements had `before`'s start and end. |
| EventManager.EventManager.constructor | js/eventManager.js:104-105 | The coordinator starts with no UI context and an empty call trace. |
| EventManager.EventManager.SetLastEvent | js/eventManager.js:108-116 | The slot holds `{action, before‖null, after‖null, source‖null}`. Nothing else in the store changes. |
| EventManager.EventManager.ClearLastEvent | js/eventManager.js:118-121 | The slot and the UI context are emptied. Events, messages, friends and buildings are untouched. |
| EventManager.EventManager.ApplyChange | js/eventManager.js:124-153 | The store holds the forward result and the slot holds the change. The UI context is replaced, and `applyAfterChange` is called once with the new list. The snackbar shows the action's text and the invite, with the undo handler installed. |
| EventManager.EventManager.UndoLastChange | js/eventManager.js:156-183 | With an empty slot nothing changes. Otherwise the store holds the inverse result and `applyAfterUndo` is called. The slot and the context are cleared, and the snackbar shows "Undid last change" with no undo handler. |
| EventManager.EventManager.CreateEvent | js/eventManager.js:186-197 | The list gains `data` at the end and the slot holds the create. The snackbar says "Event created" with the event's invite. The UI context becomes `ui`, and `applyAfterChange`, when given, is called once with the new list. Messages, friends and buildings are untouched. |
| EventManager.EventManager.EditEvent | js/eventManager.js:199-210 | Every element with `after.id` becomes `after` and the slot holds the edit. The snackbar says "Event saved". The UI context becomes `ui`, and `applyAfterChange`, when given, is called once with the new list. Messages, friends and buildings are untouched. |
| EventManager.EventManager.DeleteEvent | js/eventManager.js:212-223 | Every element with `before.id` is removed and the slot holds the delete. The snackbar says "Event deleted" with `before.invite`. The UI context becomes `ui`, and `applyAfterChange`, when given, is called once with the new list. Messages, friends and buildings are untouched. |
| EventManager.EventManager.RescheduleEvent | js/eventManager.js:225-236 | Matching elements take `after`'s start and end and the slot holds the reschedule. The snackbar text starts with "Event rescheduled to ", and its invite is `after.invite`, or `before.invite` when that is empty. The UI context becomes `ui`, and `applyAfterChange`, when given, is called once with the new list. Messages, friends and buildings are untouched. |
| EventManager.EventManager.ClickUndo | js/components/snackbar.js:62-69 | Without a visible undo button holding the coordinator's handler, nothing changes; with the handler and an empty slot, nothing changes either. With a full slot the list holds the inverse result, the slot and the UI context are cleared, `applyAfterUndo` is called when the context had one, and the snackbar shows "Undid last change" with no handler. Messages, friends and buildings are untouched in every case. |
| EventManager.EventManager.UndoTwice | js/eventManager.js:156-183 | Undo is single-slot: a second undo right after the first changes nothing more, and the slot stays empty. |
| EventManager.EventManager.CreateThenClickUndoTwice | js/eventManager.js:186-197 | Creating an event with a fresh id, then clicking undo twice, restores the original list and leaves the slot empty. |
| Storage.GlobalStorage.constructor | js/storage.js:13-19 | Events, messages and friends start empty. Buildings and the slot start null. |
| Storage.GlobalStorage.Init | js/storage.js:25-47 | Each sample data set that is present replaces its field with the processed data. Absent sets and the slot are kept. |
| Storage.GlobalStorage.GetEvents | js/storage.js:61-63 | Returns the stored events. |
| Storage.GlobalStorage.SetEvents | js/storage.js:65-67 | Stores the given list, or the empty list for a non-array. Only the events field changes. |
| Storage.GlobalStorage.GetMessages | js/storage.js:69-71 | Returns the stored threads. |
| Storage.GlobalStorage.SetMessages | js/storage.js:73-75 | Stores the given threads, or the empty list for a non-array. Only the messages field changes. |
| Storage.GlobalStorage.GetBuildings | js/storage.js:77-79 | Returns the buildings data as stored (null when absent). |
| Storage.GlobalStorage.GetFriends | js/storage.js:87-89 | Returns the stored friends. |
| Storage.GlobalStorage.GetLastEvent | js/storage.js:92-94 | Returns the slot (null when empty). |
| Storage.GlobalStorage.SetLastEvent | js/storage.js:97-99 | Stores the record, or null. Only the slot changes. |
| Storage.GlobalStorage.ClearLastEvent | js/storage.js:102-104 | Empties the slot. Events, messages, friends and buildings are untouched. |
| SnackbarComponent.Snackbar.constructor | js/components/snackbar.js:6-76 | Records which elements exist. The snackbar starts hidden, with no handler and no timer. |
| SnackbarComponent.Snackbar.Show | js/components/snackbar.js:79-122 | Without the snackbar, message or notification element nothing changes. Otherwise it shows the message (default "Event saved"), and the notice is `formatInviteeNotification(invite)`, hidden when empty. The handler is replaced, and the undo button is visible iff a handler is set. Exactly one timer is pending, for `autoHideMs` (default 10000). |
| SnackbarComponent.Snackbar.StartTimer | js/components/snackbar.js:119-121 | Schedules the auto-hide timer: one pending timer with a fresh id and the given delay. |
| SnackbarComponent.Snackbar.ClearTimer | js/components/snackbar.js:91-94 | Cancels the pending timer, if any, so none is pending. |
| SnackbarComponent.Snackbar.Hide | js/components/snackbar.js:125-137 | Without the snackbar element nothing changes. Otherwise it hides, clears the timer and drops the undo handler. |
| SnackbarComponent.Snackbar.ClickUndo | js/components/snackbar.js:62-69 | A click calls the handler only when the undo button exists and a handler is set. |
| CalendarUtils.FixedNowIsOctober6 | js/utils/calendarutils.js:6 | The fixed "now" falls on the calendar date 6 October 2025, at 09:30 local time. |
| CalendarUtils.FixedNowClock | js/utils/calendarutils.js:6-11 | The fixed "now" reads 9 hours 30 minutes on the clock. |
| CalendarUtils.ToLocalDateInputValue | js/utils/calendarutils.js:14-20 | The value ends in `-MM-DD`: dashes sit three and six characters from the end. |
| CalendarUtils.ToLocalTimeInputValue | js/utils/calendarutils.js:22-27 | The value is five characters `HH:MM`, with the colon in the middle. |
| CalendarUtils.ToLocalDateInputValueSpec | js/utils/calendarutils.js:14-20 | The date value is `YYYY-MM-DD` with month+1 and the day, each zero-padded. For a 4-digit year it parses back to the instant's calendar date. |
| CalendarUtils.ToLocalTimeInputValueSpec | js/utils/calendarutils.js:22-27 | The time value `HH:MM` parses back to the instant's minute of the day. |
| CalendarUtils.TimeTextRoundTrip | js/utils/calendarutils.js:22-27 | Zero-padded `HH:MM` of a valid hour and minute reads back as that minute of the day. |
| CalendarUtils.DateTextRoundTrip | js/utils/calendarutils.js:14-20 | A 4-digit year with a padded month and day reads back as that date. |
| CalendarUtils.FormatDateForSnackbar | js/utils/calendarutils.js:30-36 | The text starts with the English month name and a space, and ends with ", " and the full year. |
| CalendarUtils.Hour12 | js/utils/calendarutils.js:43 | `hours % 12 \|\| 12` lies in 1..12 and agrees with the hour modulo 12. |
| CalendarUtils.To24Hour12 | js/utils/calendarutils.js:42-43 | The 12-hour hour and the am/pm mark give back the 24-hour hour. |
| CalendarUtils.ClockTextRoundTrip | js/utils/calendarutils.js:39-46 | The 12-hour text of any valid hour and minute reads back as that hour and minute, with lower- or upper-case marks. |
| CalendarUtils.SnackbarTimeReadsBack | js/utils/calendarutils.js:39-46 | The snackbar time reads back as the instant's hour and minute. It ends in "pm" exactly from noon on (hours 0 and 12 show as 12). |
| CalendarUtils.FormatInviteeNotification | js/utils/calendarutils.js:49-58 | The notice is empty exactly when the invite names nobody, and otherwise starts with "Notified ". |
| CalendarUtils.InviteNamesOfJoin | js/utils/calendarutils.js:49-58 | Clean names joined by ", " split back into exactly those names. |
| CalendarUtils.InviteeNotificationNames | js/utils/calendarutils.js:49-58 | The notice is "" exactly when the invite names nobody. Otherwise it is "Notified " followed by text naming exactly the trimmed, non-empty invitees. |
| CalendarUtils.DisplayHourIsHour12 | js/utils/calendarutils.js:319 | The options' display hour is the same 12-hour hour as the snackbar's. |
| CalendarUtils.BuildTimeOptions | js/utils/calendarutils.js:312-326 | The nested loops produce the options of every hour at every step, in order. |
| CalendarUtils.HourOptions30 | js/utils/calendarutils.js:315-323 | With step 30, an hour contributes its :00 and :30 options. |
| CalendarUtils.OptionsBefore30Length | js/utils/calendarutils.js:312-326 | With step 30, the options of n hours number 2n. |
| CalendarUtils.TimeOption30At | js/utils/calendarutils.js:330 | The i-th 30-minute option is hour i/2 at minute 0 or 30. |
| CalendarUtils.TimeOption30Value | js/utils/calendarutils.js:330 | The i-th 30-minute option's value reads back as minute 30·i of the day. |
| CalendarUtils.TimeOptionReadsBack | js/utils/calendarutils.js:316-322 | An option's value reads back as its minute of the day, and its display as its hour and minute. |
| CalendarUtils.TimeOptions | js/utils/calendarutils.js:312-330 | Any step gives at least one option per hour, and the first option is "00:00" shown as "12:00 AM". |
| CalendarUtils.TimeOptions30Shape | js/utils/calendarutils.js:312-330 | `TIME_OPTIONS_30_MIN` has 48 entries, and the i-th is minute 30·i. Its "h:MM AM/PM" display reads as that hour and minute, so midnight shows as 12 AM and noon as 12 PM. |
| CalendarUtils.TimeOptions30Ascending | js/utils/calendarutils.js:330 | The 30-minute option values are strictly increasing. |
| CalendarUtils.FindClosestTimeOption | js/utils/calendarutils.js:333-341 | For a valid hour the result is a readable `HH:MM` whose hour is the input hour or the next one around the clock. |
| CalendarUtils.ClosestHalfHour | js/utils/calendarutils.js:333-341 | Step-30 rounding lands on a half-hour mark. It rounds halves up and carries into the hour modulo 24. |
| CalendarUtils.ClosestTimeOptionIsOption | js/utils/calendarutils.js:333-341 | For a valid time, the closest option is one of the `TIME_OPTIONS_30_MIN` values. |
| CalendarUtils.ClosestTimeOptionIsNear | js/utils/calendarutils.js:333-341 | The chosen option is at most 15 minutes after, or less than 15 minutes before, the input, around the clock. |
| CalendarUtils.AnyChoiceNamed | js/utils/calendarutils.js:255-268 | The `some` search succeeds exactly when some choice is named by the lowered value, or by its "place, building" halves. |
| CalendarUtils.ValidateLocationValue | js/utils/calendarutils.js:232-279 | A blank input or an empty choice list is valid. Otherwise the input is valid iff it names a choice. Invalid input gets the fixed message built from the raw text. |
| CalendarUtils.PickedCaptionIsValid | js/utils/calendarutils.js:232-279 | A building or place label picked from the list validates. |
| CalendarUtils.PickedPlaceIsValid | js/utils/calendarutils.js:245-264 | A "place, building" text built from a listed place validates through the comma branch. |
| CalendarUtils.ValidateTimeRange | js/utils/calendarutils.js:283-309 | A missing or unreadable date or time passes. A readable range is invalid, with "End time must be after start time.", exactly when end ≤ start. |
| CalendarUtils.BuildLocationChoices | js/utils/calendarutils.js:204-229 | The loops produce, for each building in key order, its building choice followed by one choice per location. |
| CalendarUtils.LocationChoices | js/utils/calendarutils.js:204-229 | The choices number one per building plus one per location. |
| CalendarUtils.LocationChoicesAt | js/utils/calendarutils.js:204-229 | The i-th choice of building k sits right after the choices of the buildings before it. |
| CalendarUtils.BuildingSlot | js/utils/calendarutils.js:209-216 | Each building is listed first among its choices, under `name ‖ key`, with type 'building'. |
| CalendarUtils.PlaceSlot | js/utils/calendarutils.js:218-225 | Location j follows its building. It carries its own name and the building's listed name, and its type defaults to 'location'. |
| CalendarUtils.LocationChoicesCount | js/utils/calendarutils.js:204-229 | The number of choices is Σ(1 + number of locations). |
| CalendarUtils.ComputeModalDateTimeValues | js/utils/calendarutils.js:344-376 | The form's date and start time are those of the start preset, else the event's start, else the fixed now. The end time is the given end's, or one hour after the start around the clock. |
| Clock.CivilFromDays | js/utils/calendarutils.js:16-18 | A day number's calendar date has a month in 1..12 and a day in 1..31. |
| Clock.CivilRoundTrip | js/utils/calendarutils.js:14-20 | Every valid calendar date, turned into its day number and back, gives that date again. |
| Clock.DateOfMakeInstant | js/utils/loaddata.js:13-26 | `new Date(y, m, d, h, min)` for a valid date reads back year `y`, month index `m` and day `d`. |
| Clock.MakeInstantFields | js/utils/loaddata.js:13-26 | `new Date(y, m, d, h, min)` with a valid hour and minute reads back that hour and minute. |
| Clock.MonthIndex | js/utils/calendarutils.js:17 | `getMonth()` is a month index in 0..11. |
| Clock.DayOfMonth | js/utils/calendarutils.js:18 | `getDate()` is a day of the month in 1..31. |
| Clock.Hours | js/utils/calendarutils.js:24 | `getHours()` is an hour in 0..23. |
| Clock.Minutes | js/utils/calendarutils.js:25 | `getMinutes()` is a minute in 0..59. |
| Text.Pad2 | js/utils/calendarutils.js:15 | `padStart(2, '0')` of a number below 100 is exactly two characters. |
| Clock.ClockFields | js/utils/calendarutils.js:23-25 | `getHours()` and `getMinutes()` together give the minute of the day. |
| Clock.NextHourMinute | js/utils/calendarutils.js:349 | One hour later is sixty minutes on, around the clock. |
| Clock.SameDayNumber | js/utils/messageutils.js:97-100 | Instants on the same day number share year, month and date. |
| Text.Trim | js/utils/calendarutils.js:233 | The result neither starts nor ends with white space, every character comes from the text, and text that already has no white space at either end is kept whole. |
| Text.TrimIsSlice | js/utils/calendarutils.js:233 | `trim` removes white space only, and only at the ends: the result is the slice of the text right after its leading white space, and everything after the slice is white space. |
| Text.TrimIdempotent | js/utils/calendarutils.js:52 | Trimming twice is trimming once. |
| Text.LowerIdempotent | js/utils/maputils.js:423 | Lower-casing twice is lower-casing once. |
| Text.IndexOf | js/utils/calendarutils.js:246 | `indexOf` gives the first position of the character, or -1 exactly when it is absent. |
| Text.Split | js/utils/calendarutils.js:50 | `split` yields at least one piece, and no piece contains the separator. |
| Text.SplitJoinRoundTrip | js/utils/calendarutils.js:50-51 | Joining the pieces of a split with the separator gives the text back. |
| Text.Pad2RoundTrip | js/utils/calendarutils.js:15 | The padded number text is all digits and reads back as the number. |
| Text.NatToStringRoundTrip | js/utils/calendarutils.js:16 | A number's decimal text reads back as the number. |
| Text.LexTransitive | js/utils/maputils.js:484 | The order standing for `localeCompare` is transitive. |
| Text.LexTotal | js/utils/maputils.js:484 | The order standing for `localeCompare` is total. |
| Entities.InviteNames | js/utils/calendarutils.js:50-53 | The invite's names are non-empty, comma-free and already trimmed. |
| Entities.TrimAllClean | js/utils/calendarutils.js:51-52 | Trimming comma-free pieces gives comma-free, already trimmed names. |
| Entities.NonEmpty | js/utils/calendarutils.js:53 | The filter keeps exactly the non-empty names. |
| MapUtils.GeoJson | js/utils/maputils.js:5-63 | Every feature of the conversion has a closed ring. |
| MapUtils.ConvertOverpassToGeoJson | js/utils/maputils.js:5-63 | Missing data or non-array `elements` gives no features. Otherwise the two passes compute the reference conversion, and every emitted ring is closed. |
| MapUtils.ScanElements | js/utils/maputils.js:15-21 | The first pass yields the node dictionary (a later node overwrites) and the ways that carry a node list, in order. |
| MapUtils.BuildFeatures | js/utils/maputils.js:24-56 | The second pass yields one closed-ring feature per way with at least 3 references and 3 known nodes. |
| MapUtils.FeaturesClosed | js/utils/maputils.js:33-39 | Every ring has at least three positions and ends where it starts. |
| MapUtils.WayFeatureShape | js/utils/maputils.js:25-39 | A way yields no feature with fewer than 3 references or 3 known nodes. Otherwise its ring is the known `[lon, lat]` positions, closed only when they are not already closed. |
| MapUtils.ResolveAllKnown | js/utils/maputils.js:26-31 | With every node known, the ring positions are those nodes' `[lon, lat]`, in order. |
| MapUtils.ResolveFromTable | js/utils/maputils.js:26-31 | Unknown node ids are dropped, and every position comes from a referenced known node. |
| MapUtils.NodeTableLookup | js/utils/maputils.js:16-17 | The dictionary holds the last node element's `[lat, lon]` for each id. |
| MapUtils.NodeTableUnknown | js/utils/maputils.js:16-17 | An id that no node element carries is not in the dictionary. |
| MapUtils.PropertiesOfTags | js/utils/maputils.js:47-51 | The properties default `name` to "university building" and `building` to "yes". Every tag overrides them, including an empty one. |
| MapUtils.BuildRatingStars | js/utils/maputils.js:66-71 | The text is at most ten characters, all full or empty stars, and no full star follows an empty one. |
| MapUtils.RatingStarsInRange | js/utils/maputils.js:66-71 | For a rating in [0, 6) the text is min(floor(r), 5) full stars followed by empty stars, five stars in all. |
| MapUtils.RatingStarsIgnoreFraction | js/utils/maputils.js:66-71 | The half-star value is never shown: a rating reads like its whole part. |
| MapUtils.StripEmojiFromTitle | js/utils/maputils.js:271-277 | The result neither starts nor ends with white space, and every character comes from the title (none from a missing title). |
| MapUtils.StripSampleTitle | js/utils/maputils.js:271-277 | Stripping "emoji name" gives the name back. |
| MapUtils.StripSingleWord | js/utils/maputils.js:271-277 | A one-word title without white space is kept whole. |
| MapUtils.StripLeadingWord | js/utils/maputils.js:271-277 | A leading run without white space, followed by white space, is dropped and the rest is trimmed, whatever spaces separate or follow it. |
| MapUtils.StripLeadingSpace | js/utils/maputils.js:271-277 | A title that starts with white space has no leading run to drop: it is only trimmed. |
| MapUtils.ResolveBuildingNameForLocation | js/utils/maputils.js:301-348 | The loops with early returns compute the reference resolution. A resolved name is always a key of the data. |
| MapUtils.FindHolder | js/utils/maputils.js:317-335 | The location loop returns the first building holding a location of that lowered name. |
| MapUtils.FindKeyLike | js/utils/maputils.js:337-344 | The key loop returns the first key equal to the name ignoring case. |
| MapUtils.NoHolder | js/utils/maputils.js:317-335 | When no building holds a location of that name, the location search finds nothing. |
| MapUtils.SearchesGiveKeys | js/utils/maputils.js:317-344 | Both searches answer with a key of the data, and the key search's answer equals the input ignoring case. |
| MapUtils.FirstHolderIsFirst | js/utils/maputils.js:317-335 | The holder found is the building at the lowest index holding the location. |
| MapUtils.ResolveByComma | js/utils/maputils.js:306-314 | First priority: when the trimmed text after the first comma is a key, that key is the result, ahead of any location or key match. |
| MapUtils.ResolveByLocation | js/utils/maputils.js:301-335 | The comma part may not name a key. Then a case-insensitive location-name match resolves to the first building holding it. |
| MapUtils.ResolveByKey | js/utils/maputils.js:337-347 | With no comma key and no location match, the result is the key equal to the input ignoring case, or null. |
| MapUtils.ResolveBuildingName | js/utils/maputils.js:301-348 | A resolved name is always one of the data's keys; with no data nothing resolves. |
| MapUtils.FirstKeyLikeNone | js/utils/maputils.js:337-347 | The key search fails exactly when no key equals the input ignoring case. |
| MapUtils.GetEventOffsetForIndex | js/utils/maputils.js:352-361 | Each offset moves one step north or south and one step east or west. |
| MapUtils.EventOffsetPeriodic | js/utils/maputils.js:352-361 | The offsets repeat every four indices, and every negative index gets entry 0. |
| MapUtils.EventOffsetsDistinct | js/utils/maputils.js:352-361 | Four consecutive indices get four different offsets. |
| MapUtils.SearchMapEntities | js/utils/maputils.js:421-488 | A blank query gives []. Otherwise the result is the comparator sort of the collected matches, so it is sorted, a permutation of them, and stable: results the comparator calls equal keep their collection order. Every result's name contains the query ignoring case. |
| MapUtils.CollectFriends | js/utils/maputils.js:431-441 | The friends loop yields each friend whose non-empty name matches, in order. |
| MapUtils.CollectBuildings | js/utils/maputils.js:444-474 | The buildings loop appends, in key order, each building's own match and then its locations' matches. |
| MapUtils.CollectEntry | js/utils/maputils.js:446-472 | One building's step appends its own result and then its locations'. |
| MapUtils.SortResults | js/utils/maputils.js:477-485 | The sort keeps the number of results. |
| MapUtils.SortResultsSorted | js/utils/maputils.js:477-485 | The sort yields a sorted permutation of its input. |
| MapUtils.InsertSorted | js/utils/maputils.js:477-485 | Inserting into a sorted result list keeps it sorted. |
| MapUtils.InsertPermutation | js/utils/maputils.js:477-485 | Inserting adds exactly the one result (multiset). |
| MapUtils.RanksTotal | js/utils/maputils.js:477-485 | The comparator orders any two results. |
| MapUtils.RanksTransitive | js/utils/maputils.js:477-485 | The comparator is transitive. |
| MapUtils.InsertOfRank | js/utils/maputils.js:477-485 | Inserting a result puts it before every result of equal rank already in the list. |
| MapUtils.SortResultsStable | js/utils/maputils.js:477-485 | The sort is stable: the results of any one rank come out in their input order. |
| MapUtils.Collected | js/utils/maputils.js:430-474 | Every collected result's name contains the query ignoring case. |
| MapUtils.FriendResultsMatch | js/utils/maputils.js:431-441 | Friend results are exactly the friends with a matching non-empty name. |
| MapUtils.LocationResultsMatch | js/utils/maputils.js:459-471 | Every location result is a location hit of that building whose name contains the query. |
| MapUtils.BuildingResultsMatch | js/utils/maputils.js:444-474 | Every building-loop result's name contains the query ignoring case. |
| MapUtils.SortedKindOrder | js/utils/maputils.js:477-485 | In the sorted list friends come before buildings, and buildings before locations. Results of one kind are in name order. |
| MessageUtils.BuildDmsFromStorage | js/utils/messageutils.js:11-38 | The copy has as many threads as the input. |
| MessageUtils.BuildDmsIsCopy | js/utils/messageutils.js:11-38 | The copy equals the input field for field: ids, order, members and every message. |
| MessageUtils.FormatRelativeTimestamp | js/utils/messageutils.js:41-65 | Under a minute ago the text is "just now"; from a minute to a week ago it ends in " ago". |
| MessageUtils.AgoReadsBack | js/utils/messageutils.js:52-58 | An "<n><unit> ago" text reads back as its count and unit. |
| MessageUtils.RelativeJustNow | js/utils/messageutils.js:41-50 | Under a minute ago (or in the future) the text is "just now". |
| MessageUtils.RelativeBuckets | js/utils/messageutils.js:41-60 | From 2025-10-06 09:00: "Nm ago" under an hour, "Nh ago" under a day and "Nd ago" under a week. N is the floored count, so N·unit ≤ elapsed < (N+1)·unit. |
| MessageUtils.FormatMessageTime | js/utils/messageutils.js:68-75 | The time ends in a space and "pm" from noon on, "am" before. |
| MessageUtils.MessageTimeReadsBack | js/utils/messageutils.js:68-75 | The message time agrees with the snackbar clock text and reads back as the hour and minute. |
| MessageUtils.FormatEventTimeRange | js/utils/messageutils.js:78-116 | With the intended dash, the range contains an en dash exactly when there is an end. |
| MessageUtils.FormatEventTimeRangeAsWritten | js/utils/messageutils.js:97-116 | As written, a range without an end is the intended text, and one with an end is two characters longer (three for the one intended dash). |
| MessageUtils.RangeWithoutEnd | js/utils/messageutils.js:90-92 | With no end, the range is the start time alone. |
| MessageUtils.SameDayRangeReadsBack | js/utils/messageutils.js:97-103 | A same-day range, with the intended en dash, splits at the dash into the start's and the end's clock times. |
| MessageUtils.SameDayRangeAsWrittenUnreadable | js/utils/messageutils.js:103 | As written, a same-day range contains no en dash and does not read back as a range. |
| MessageUtils.SortByRecency | js/utils/messageutils.js:122-124 | The sort keeps the number of threads. |
| MessageUtils.SortByRecencySorted | js/utils/messageutils.js:122-124 | The DM order is newest first and a permutation of the threads. |
| MessageUtils.NewestIsFirst | js/utils/messageutils.js:122-124 | The first thread of the order is a thread with the largest `lastMessageTime`. |
| MessageUtils.InsertByRecencySorted | js/utils/messageutils.js:122-124 | Inserting into a newest-first list keeps it newest first. |
| MessageUtils.InsertByRecencyPermutation | js/utils/messageutils.js:122-124 | Inserting by recency adds exactly the one thread (multiset). |
| MessageUtils.InsertAtTime | js/utils/messageutils.js:122-124 | Inserting a thread puts it before every thread with the same `lastMessageTime` already in the list. |
| MessageUtils.SortByRecencyStable | js/utils/messageutils.js:122-124 | The sort is stable: threads with the same `lastMessageTime` keep their input order. |
| MessageUtils.BuildDmList | js/utils/messageutils.js:119-153 | The list has one entry per thread (none for a non-array). |
| MessageUtils.DmListShape | js/utils/messageutils.js:119-137 | The list shows every thread once, newest first. An entry is active iff its id is `currentDmId`. |
| MessageUtils.BuildInviteEvents | js/utils/messageutils.js:181-268 | There are at most as many entries as events, and each entry is for one of the events. |
| MessageUtils.MatchingEventsSpec | js/utils/messageutils.js:191-203 | The filter keeps exactly the events whose title, name or location contains the query ignoring case. |
| MessageUtils.InviteEventsOffered | js/utils/messageutils.js:187-205 | An event is offered iff it is one of the events and the query is blank or matches it. |
| MessageUtils.InviteEventsState | js/utils/messageutils.js:205-231 | Each entry lists its non-empty invitees. It is "Already in" iff the chat is not a group and the user is among its invite pieces, ignoring case. |
| MessageUtils.BuildMessagesView | js/utils/messageutils.js:271-423 | There is no message list exactly when no thread is open or it has no messages. Otherwise there is one item per message, marked own iff its author is "You", with an invitation view iff the message is an invitation carrying an event. |
| MessageUtils.FirstUserDmNamedSpec | js/utils/messageutils.js:295-297 | The find returns the first user thread with the author's name, or none when there is none. |
| MessageUtils.InvitationOf | js/utils/messageutils.js:308-341 | A message has an invitation view iff it is an invitation carrying an event. The view has a heading, and its buttons show iff there is no response text. |
| MessageUtils.InvitationState | js/utils/messageutils.js:308-326 | The text is "Accepted" iff the response is accept, and "Declined" iff it is decline. The buttons show iff there is no response, which is iff the text is empty. They are disabled iff the author is "You". |
| MessageUtils.AvatarOf | js/utils/messageutils.js:288-305 | Own messages get the user's initials and one-to-one threads the thread's avatar. In a group another author gets a user thread's avatar of that name, else the author's first character. |
| MessageUtils.GroupAvatar | js/utils/messageutils.js:288-305 | In a group, another author's avatar is that of the first user thread of the same name, else the author's first character. |
| LoadData.SampleNowIsOctober6 | js/utils/loaddata.js:6-8 | The sample data's "now" falls on the calendar date 6 October 2025, at 09:00. |
| LoadData.ProcessEvents | js/utils/loaddata.js:11-42 | One event per sample, in order. |
| LoadData.SampleEventIdsDistinct | js/utils/loaddata.js:31 | "sample_evt_" ids of different indices differ. |
| LoadData.ProcessedIdsDistinct | js/utils/loaddata.js:11-42 | The processed events have pairwise distinct ids. |
| LoadData.ProcessedEventFields | js/utils/loaddata.js:28-40 | The title is emoji + " " + name, and the other fields are copied unchanged. |
| LoadData.ProcessedEventTimes | js/utils/loaddata.js:13-26 | Start and end fall on the same calendar day and read back the sample's hours and minutes. |
| LoadData.ProcessedEventDate | js/utils/loaddata.js:13-26 | For a valid sample date, the start and the end fall on exactly that calendar date. |
| LoadData.ProcessMessages | js/utils/loaddata.js:45-87 | One thread per sample, in order. |
| LoadData.ProcessedThreadShape | js/utils/loaddata.js:75-85 | Id, name, type, members, last-message text and message count are kept. |
| LoadData.ProcessedThreadTimes | js/utils/loaddata.js:46-71 | A thread's or message's `Date` time is kept, otherwise the time is now + offset. Response time, author and text are copied. |
| LoadData.ProcessFriends | js/utils/loaddata.js:90-92 | The friends are passed through unchanged. |
| LoadData.ProcessBuildings | js/utils/loaddata.js:95-97 | The buildings data is passed through unchanged. |
| MessagesPage.FirstEventIndex | js/pages/messages.js:641 | The first event with the id, or none when no event has it. |
| MessagesPage.FirstDmIndex | js/pages/messages.js:646 | The first thread with the id, or none when no thread has it. |
| MessagesPage.MemberDm | js/pages/messages.js:658-660 | The user thread a member id names, or none. |
| MessagesPage.InvitedNames | js/pages/messages.js:651-682 | The new invite list starts with the current invitees. In a one-to-one chat it names the user. |
| MessagesPage.AddIfAbsentSpec | js/pages/messages.js:673-679 | Adding keeps the list and names the person afterwards (ignoring case). It adds at most that one name. |
| MessagesPage.WithMembersKeeps | js/pages/messages.js:656-671 | The group branch keeps every earlier invitee in place. |
| MessagesPage.WithMembersNamesAll | js/pages/messages.js:656-671 | The group branch ends up naming every member that has a user thread. |
| MessagesPage.WithMembersAddsOnlyMembers | js/pages/messages.js:656-671 | Each added name is one a member id resolves to; other members are ignored. |
| MessagesPage.AddMembers | js/pages/messages.js:656-671 | The member loop computes the group branch's invite list. |
| MessagesPage.InvitedUserIsAlreadyIn | js/pages/messages.js:672-682 | After a one-to-one invitation the stored invite keeps the earlier invitees and names the user. The event then shows "Already in" for that user. |
| MessagesPage.GroupInviteNamesMembers | js/pages/messages.js:651-682 | After a group invitation the stored invite keeps the earlier invitees and names every member with a user thread. |
| MessagesPage.WithResponse | js/pages/messages.js:625-626 | Only the answered message changes, and in it only the response and its time: the response is the given one and a time is set. |
| MessagesPage.WithInvitation | js/pages/messages.js:693-705 | Only the messages and the last-message fields change. One invitation from "You", stamped now, carrying the event and its id is appended. The last message is "You: sent an invitation to " followed by the event's name, or its title when the name is empty, and the last-message time is now. |
| MessagesPage.WithText | js/pages/messages.js:733-742 | Only the messages and the last-message fields change. One message from "You" with the text, stamped now, is appended. The last message is "You: {text}" and the last-message time is now. |
| MessagesPage.RespondedInvitationView | js/pages/messages.js:625-626 | An answered invitation shows "Accepted"/"Declined" and no buttons. |
| MessagesPage.MessagesPage.constructor | js/pages/messages.js:25-36 | The page starts with no threads and no open thread. |
| MessagesPage.MessagesPage.Init | js/pages/messages.js:25-36 | Without the page container nothing happens. Otherwise the threads are the store's threads and none is open. |
| MessagesPage.MessagesPage.SelectDm | js/pages/messages.js:516-522 | A known id becomes the open thread. An unknown id changes nothing. |
| MessagesPage.MessagesPage.ShowDmView | js/pages/messages.js:215-230 | A valid open thread stays open. Otherwise the thread with the largest `lastMessageTime` is opened, when there is one. |
| MessagesPage.MessagesPage.SendMessage | js/pages/messages.js:714-744 | With no open thread, blank text or an unknown thread nothing changes. Otherwise exactly one message is appended and `lastMessage` is "You: {text}". The threads are stored, and events and the slot are untouched. Friends and buildings are untouched. |
| MessagesPage.MessagesPage.HandleInvitationResponse | js/pages/messages.js:610-631 | An out-of-range index or a non-invitation message changes nothing. Otherwise that one message gets the response and the time, and the threads are stored. Friends and buildings are untouched. |
| MessagesPage.MessagesPage.SendInvitation | js/pages/messages.js:635-711 | No open thread, no event id, an unknown event or an unknown thread changes nothing. Otherwise the event's invite becomes the extended list joined by ", " and the event is stored back at its own index. One invitation is appended and `lastMessage` names the event. The slot is never touched. Friends and buildings are untouched. |
| EventModal.FriendNamed | js/components/eventmodal.js:453-455 | The first friend whose non-empty name equals the given name ignoring case, or none. |
| EventModal.FriendById | js/components/eventmodal.js:1201 | The first friend with the id, or none. |
| EventModal.PrefillIds | js/components/eventmodal.js:445-460 | The prefill picks at most one friend per invite name. |
| EventModal.PrefillIdsSpec | js/components/eventmodal.js:445-460 | The prefilled selection has no duplicates and holds exactly the ids some invite name picks. |
| EventModal.PrefillSelection | js/components/eventmodal.js:452-459 | The prefill loop computes that selection, in invite order and without duplicates. |
| EventModal.SelectionFor | js/components/eventmodal.js:439-469 | `open` prefills the selection from a non-empty invite, else starts it empty. |
| EventModal.WithoutSpec | js/components/eventmodal.js:976-978 | Removal keeps exactly the other ids, never adds one, and keeps a duplicate-free list duplicate-free. |
| EventModal.OfferedFriendsSpec | js/components/eventmodal.js:997-1006 | A friend is offered iff it is not selected and its name matches the query. |
| EventModal.InviteOptions | js/components/eventmodal.js:987-1008 | At most 20 friends are shown, each an existing friend that is not selected. |
| EventModal.InviteOptionsSpec | js/components/eventmodal.js:987-1008 | At most 20 are shown, each unselected and with a matching name. Fewer than 20 means every offered friend is shown. |
| EventModal.PickedLocationIsValid | js/components/eventmodal.js:874-893 | The picked text is "label, building" for a typed non-building choice that has a building, else the label. Either validates against the choices. |
| EventModal.ErrorsOf | js/components/eventmodal.js:1134-1171 | The title error is set iff the trimmed title is empty. |
| EventModal.ErrorsOfSpec | js/components/eventmodal.js:1134-1171 | The form passes iff no error text is set. The title error is set iff the trimmed title is empty. |
| EventModal.DateStamp | js/components/eventmodal.js:1183-1185 | A date alone gives a valid start exactly when it is a readable `YYYY-MM-DD` value, and that start is at midnight. |
| EventModal.StartOf | js/components/eventmodal.js:1180-1195 | There is a start exactly when a date is given. |
| EventModal.EndOf | js/components/eventmodal.js:1180-1195 | Without a date or an end time, the end is one hour after a valid start, and invalid exactly when the start is. |
| EventModal.SavedTimes | js/components/eventmodal.js:1180-1195 | With a date there is a start. The end is date + end time when given, else start + 1 hour. |
| EventModal.SelectedNames | js/components/eventmodal.js:1198-1205 | There is at most one name per selected id. |
| EventModal.SelectedNamesSpec | js/components/eventmodal.js:1198-1205 | The invite names are those of the chosen friends that still exist, in selection order. |
| EventModal.PrefillOfSelectedNames | js/components/eventmodal.js:445-460 | Prefilling from the saved names gives back the selection, when friends are identified by their names. |
| EventModal.SaveThenOpenRestoresSelection | js/components/eventmodal.js:1197-1205 | Saving and then reopening the event restores the friend selection, for friends identified by their names. |
| EventModal.OpenedFieldsSpec | js/components/eventmodal.js:439-490 | `open` fills title, place, notes and emoji from the event (empty, or the calendar emoji, when there is none). Date and start come from the presets. |
| EventModal.EventModal.constructor | js/components/eventmodal.js:22-27 | The form starts closed: no edit id, no selection, no choices, empty fields and errors. |
| EventModal.EventModal.Open | js/components/eventmodal.js:379-505 | Edit mode with the event's id iff the id is truthy, else null. The selection is prefilled and the choices come from the stored buildings. The fields are the opened values, and errors are cleared. |
| EventModal.EventModal.Show | js/components/eventmodal.js:426-490 | Writes the state `open` sets up, with no error text. |
| EventModal.EventModal.Close | js/components/eventmodal.js:508-581 | Leaves edit mode and empties the selection, the fields and the error texts. |
| EventModal.EventModal.AddFriend | js/components/eventmodal.js:1057-1070 | A non-empty id that is not yet chosen is appended. Otherwise nothing changes, so there are never duplicates. |
| EventModal.EventModal.RemoveFriend | js/components/eventmodal.js:971-982 | Every copy of a non-empty id is filtered out. |
| EventModal.EventModal.PickLocation | js/components/eventmodal.js:874-893 | Writes the picked text into the location field and clears the location error. |
| EventModal.EventModal.SaveEventFromModal | js/components/eventmodal.js:1094-1229 | The error texts come from the three checks. An invalid form, or one with no date, keeps the rest and saves nothing. Otherwise the form closes and `onSave` gets the trimmed values, start, end, invite and selection. |

## Left out

- **Rendering, DOM and console output.**
  - DOM rendering, HTML template strings, focus handling, tooltips and `console.log` are not modelled.
  - Of the HTML builders, only the ordering, filtering and state decisions are modelled.
- **Timers.** The snackbar timer firing is host-environment behaviour. The model records the pending timer and its delay.
- **Page callbacks.** The page callbacks the coordinator invokes (`applyAfterChange`, `applyAfterUndo`, `onSave`) are recorded as tokens in a trace, or as a returned value. What they do is not part of this model.
- **sessionStorage and generateEventId.**
  - MessagesPage.MessagesPage.Init does not model the hand-off from the map page through `sessionStorage`, nor the `showDmView` call at the end of `init`. `ShowDmView` is modelled on its own.
  - `generateEventId` uses `Math.random` and is not modelled.
- **Locale formatting.**
  - `toLocaleDateString` texts are modelled with an English month-name table.
  - The exact date text of the reschedule message is not proved.
- **Dates and times.**
  - Time zones and daylight saving time are not modelled: local time is a plain millisecond count.
  - EventModal.DateStamp: `new Date(date)` on a date-only `YYYY-MM-DD` value is midnight UTC in JavaScript, while a date with a time (`new Date(date + 'T' + time)`) is read as local time. The model has a single time line, so both are the same midnight; the offset between them is not modelled.
  - An Invalid Date is a separate `Stamp` case on the save path. Elsewhere an unreadable date or time is `None`.
  - MessagesPage.MessagesPage.SendInvitation models stored events and messages as values. In the source, the same `event` object is shared by the events array and the invitation message (aliasing); the model does not capture that sharing.
- **JavaScript object semantics.**
  - Property lookup on the buildings object (`buildingsData[name]`) also finds inherited prototype properties such as `constructor`. The model treats the data as own keys only.
  - Integer-like keys are not reordered the way JavaScript orders them.
- **Text.** `toLowerCase` and `trim` are modelled for ASCII only. Non-ASCII case folding and Unicode white space are not.
- **Floating-point map helpers.** `calculatePolygonCentroid`, `buildPopularTimesHtml`, `createPersonIcon`, `createEventIcon` and the degree values of the marker offsets are not modelled; the offsets are steps of 0.0001 degrees.
- **Other copies of formatEventTimeRange.** `js/utils/maputils.js` and `js/utils/calendarutils.js` each have their own `formatEventTimeRange`; neither is modelled.
- **Event-form details.**
  - The location dropdown's own filter, the emoji picker and the time dropdowns are not modelled.
  - The DOM-presence guards at the start of `open` and `saveEventFromModal` are not modelled: the form elements are assumed to exist.
- **Storage copies.**
  - In the source, the storage getters return `slice()` copies. With value sequences a copy is the same value, so the model returns the stored value.
  - The commented-out `setBuildings`, `setFriends`, `clear` and `subscribeEvents` are not part of this model.
- CalendarUtils.FindClosestTimeOption: takes the hour and minute as naturals, so the `timeValue.split(':').map(Number)` parse and its NaN result for malformed text are not modelled. The form only calls it with a non-empty time value.
- EventManager.MessageOfAction: for a reschedule with a start, only the "Event rescheduled to " prefix is stated; the date-and-time text is not.
- EventManager.EventManager.RescheduleEvent: the snackbar text is stated as starting with "Event rescheduled to "; the full date-and-time text is not given.

## Findings

| source | as written | input that shows it | evidently intended | confidence | as-written member | corrected member |
|---|---|---|---|---|---|---|
| js/utils/messageutils.js:103 | The same-day range separator is the three characters U+201A U+00C4 U+00EC ("‚Äì"): the UTF-8 bytes of an en dash read as Mac Roman. | Any event whose start and end fall on the same day, e.g. 10:00 to 11:00 on 6 October 2025, shows "10:00 am ‚Äì 11:00 am". | An en dash (U+2013), as `js/utils/maputils.js:296` writes it, with the escape `\u2013`. Line 115 has the same defect for multi-day ranges. | not executed | MessageUtils.SameDayRangeAsWrittenUnreadable | MessageUtils.SameDayRangeReadsBack |
