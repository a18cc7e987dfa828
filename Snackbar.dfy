/**
 * The global snackbar (`js/components/snackbar.js`): a message, an optional
 * invitee notice, an optional undo handler and an auto-hide timer. The DOM
 * elements are reduced to the state the component writes into them; the
 * host's timers are counted, so that "at most one pending timer" is a
 * checked invariant.
 */
module SnackbarComponent {
  import opened Wrappers
  import CalendarUtils

  /** The functions a caller may hand over as `onUndo`. */
  datatype UndoHandler = UndoLastChangeHandler | OtherHandler(name: string)

  /** An element's inline `display` style: never set, `block`, or `none`. */
  datatype Display = Unset | Block | DisplayNone

  /**
   * What the snackbar's elements show: the visibility class, the message
   * text, the notice text and the notice's and undo button's `display`.
   */
  datatype View = View(visible: bool, message: string, notice: string, noticeDisplay: Display, undoDisplay: Display)

  const DefaultMessage: string := "Event saved"
  const DefaultAutoHideMs: int := 10000

  class Snackbar {
    /** Whether `init` found each element (the snackbar, its message, its notice, the undo button). */
    const hasSnackbar: bool
    const hasMessage: bool
    const hasNotification: bool
    const hasUndoButton: bool

    var view: View
    var currentOnUndo: Option<UndoHandler>
    var snackbarTimer: Option<nat>
    /** How many host timers are pending, and the delay the last one was set with. */
    var pendingTimers: nat
    var timerDelay: int
    /** The id the host hands out next (host ids are positive). */
    var nextTimerId: nat

    /**
     * At most one timer is pending, and it is the one `snackbarTimer` holds;
     * while the snackbar shows, the undo button is shown exactly when a
     * handler is set; only a mounted snackbar holds a handler.
     */
    predicate Valid()
      reads this
    {
      0 < nextTimerId
      && pendingTimers == (if snackbarTimer.Some? then 1 else 0)
      && (snackbarTimer.Some? ==> 0 < snackbarTimer.value < nextTimerId)
      && (view.visible && hasUndoButton ==> (view.undoDisplay == Block <==> currentOnUndo.Some?))
      && (currentOnUndo.Some? ==> Mounted())
    }

    /** Whether `show` can run: the snackbar, message and notice elements all exist. */
    predicate Mounted()
      reads this
    {
      hasSnackbar && hasMessage && hasNotification
    }

    /**
     * The snackbar shows `message` with the notice of `invite` (hidden when
     * empty), offers `onUndo`, and one timer is pending to hide it after
     * `delay` milliseconds.
     */
    predicate Displays(message: string, invite: string, onUndo: Option<UndoHandler>, delay: int)
      reads this
    {
      var notice := CalendarUtils.FormatInviteeNotification(invite);
      view.visible && view.message == message && currentOnUndo == onUndo
      && view.notice == notice && view.noticeDisplay == (if notice != "" then Block else DisplayNone)
      && snackbarTimer.Some? && pendingTimers == 1 && timerDelay == delay
    }

    /** `init`, after it has looked up the elements; nothing is shown yet. */
    constructor(snackbarEl: bool, messageEl: bool, notificationEl: bool, undoBtn: bool)
      ensures hasSnackbar == snackbarEl && hasMessage == messageEl
      ensures hasNotification == notificationEl && hasUndoButton == undoBtn
      ensures !view.visible && currentOnUndo == None && snackbarTimer == None
      ensures Valid()
    {
      hasSnackbar, hasMessage, hasNotification, hasUndoButton := snackbarEl, messageEl, notificationEl, undoBtn;
      view := View(false, "event saved", "", Unset, Unset);
      currentOnUndo := None;
      snackbarTimer := None;
      pendingTimers := 0;
      timerDelay := 0;
      nextTimerId := 1;
    }

    /**
     * `show(options)`: an absent option takes its default ("Event saved",
     * no invite, no handler, 10000 ms). A pending timer is cancelled before
     * the new one is set. Without its elements the call does nothing.
     */
    method Show(message: Option<string>, invite: Option<string>, onUndo: Option<UndoHandler>, autoHideMs: Option<int>)
      requires Valid()
      modifies this
      ensures Valid()
      ensures !Mounted() ==> unchanged(this)
      ensures Mounted() ==>
        Displays(message.GetOr(DefaultMessage), invite.GetOr(""), onUndo, autoHideMs.GetOr(DefaultAutoHideMs))
      ensures Mounted() ==>
        view.undoDisplay == if !hasUndoButton then old(view.undoDisplay) else if onUndo.Some? then Block else DisplayNone
    {
      if !(hasSnackbar && hasMessage && hasNotification) {
        return;
      }
      var text, inviteText := message.GetOr(DefaultMessage), invite.GetOr("");
      var delay := autoHideMs.GetOr(DefaultAutoHideMs);

      ClearTimer();
      currentOnUndo := onUndo;
      var notice := CalendarUtils.FormatInviteeNotification(inviteText);
      var undo := if !hasUndoButton then view.undoDisplay else if onUndo.Some? then Block else DisplayNone;
      view := View(true, text, notice, if notice != "" then Block else DisplayNone, undo);
      StartTimer(delay);
    }

    /** `setTimeout(hide, delay)` with no timer pending: the new timer is the one pending. */
    method StartTimer(delay: int)
      requires Valid() && snackbarTimer == None
      modifies this
      ensures snackbarTimer.Some? && pendingTimers == 1 && timerDelay == delay
      ensures 0 < snackbarTimer.value < nextTimerId
      ensures view == old(view) && currentOnUndo == old(currentOnUndo)
    {
      var id := nextTimerId;
      pendingTimers, timerDelay, snackbarTimer, nextTimerId := pendingTimers + 1, delay, Some(id), id + 1;
    }

    /** `clearTimeout` on the pending timer, if any; nothing else changes. */
    method ClearTimer()
      requires Valid()
      modifies this
      ensures snackbarTimer == None && pendingTimers == 0
      ensures 0 < nextTimerId == old(nextTimerId) && timerDelay == old(timerDelay)
      ensures view == old(view) && currentOnUndo == old(currentOnUndo)
    {
      if snackbarTimer.Some? {
        pendingTimers, snackbarTimer := pendingTimers - 1, None;
      }
    }

    /**
     * `hide`: no longer visible, no timer pending, no undo handler; the texts
     * stay. Without the snackbar element it does nothing.
     */
    method Hide()
      requires Valid()
      modifies this
      ensures Valid()
      ensures !hasSnackbar ==> unchanged(this)
      ensures hasSnackbar ==> view == old(view).(visible := false)
      ensures hasSnackbar ==> snackbarTimer == None && pendingTimers == 0 && currentOnUndo == None
    {
      if !hasSnackbar {
        return;
      }
      ClearTimer();
      view := view.(visible := false);
      currentOnUndo := None;
    }

    /**
     * A click on the undo button: the handler to call, if one is set. The
     * snackbar stays as it is (the handler decides what shows next).
     */
    method ClickUndo() returns (call: Option<UndoHandler>)
      ensures call == if hasUndoButton then currentOnUndo else None
    {
      call := if hasUndoButton then currentOnUndo else None;
    }
  }
}
