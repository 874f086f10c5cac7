/**
 * The RSVP form component: what a guest's entries submit, the state that
 * `useActionState` keeps (replaced wholesale by each submission's result),
 * the toast chosen from it, and the screen drawn from it: the thank-you panel
 * or the form with at most the first error of each displayed field.
 */
module RsvpFormView {
  import opened JsValues
  import opened JsNumber
  import opened Actions

  /* ---------------- what the form submits ---------------- */

  /** The two radio buttons of "Will you attend?". */
  datatype Attendance = Yes | No

  /**
   * What the guest has put into the visible controls: the name text box, the
   * radio group (possibly left unchecked), the number box and the notes text area.
   */
  datatype GuestEntry = GuestEntry(name: string, attendance: Option<Attendance>, count: string, notes: string)

  /** The `value` attribute of each radio button. */
  function RadioValue(a: Attendance): string {
    match a
    case Yes => "yes"
    case No => "no"
  }

  /** The number box's `defaultValue`. */
  const DefaultGuestCount := "1"

  /**
   * The form data a submission sends: the hidden `invitation_id` carries the
   * component's prop; a text control always sends its text; an unchecked radio
   * group sends nothing, which `formData.get` reports as null.
   */
  function FormDataOf(invitationId: string, e: GuestEntry): FormData {
    FormData(
      Some(invitationId),
      Some(e.name),
      match e.attendance { case None => None case Some(a) => Some(RadioValue(a)) },
      Some(e.count),
      Some(e.notes))
  }

  /** The radio values are exactly the values the schema accepts. */
  lemma RadioValuesAccepted(a: Attendance)
    ensures IsAttendingIssues(Some(RadioValue(a))) == []
    ensures RadioValue(a) == "yes" <==> a == Yes
  {
  }

  /** The default count "1" passes the count rule with the count 1. */
  lemma DefaultCountAccepted()
    ensures GuestCountIssues(Some(DefaultGuestCount)) == []
    ensures ToNumber(Some(DefaultGuestCount)) == Finite(1.0)
  {
    GuestCountOfNumeral(1);
  }

  /**
   * Whatever the guest enters, the hidden id is the prop and the notes pass;
   * an unchecked radio group is the only way to fail the attendance rule; and
   * with a checked radio, the untouched count and a name of two or more
   * characters, the submission is valid exactly when the prop is a UUID.
   */
  lemma SubmittedFields(invitationId: string, e: GuestEntry)
    ensures FormDataOf(invitationId, e).invitationId == Some(invitationId)
    ensures NotesIssues(FormDataOf(invitationId, e).notes) == []
    ensures IsAttendingIssues(FormDataOf(invitationId, e).isAttending) == [] <==> e.attendance.Some?
    ensures e.attendance.Some? && e.count == DefaultGuestCount && |e.name| >= 2 ==>
      (IsValid(FormDataOf(invitationId, e)) <==> IsUuid(invitationId))
  {
    if e.attendance.Some? {
      RadioValuesAccepted(e.attendance.value);
    }
    DefaultCountAccepted();
    GuestNameRule(e.name);
  }

  /* ---------------- the component's state ---------------- */

  /** `initialState`: no message and no errors. */
  const InitialState := ActionState("", map[])

  /** The panel replaces the form whenever the message mentions "Thank you". */
  predicate ShowsThankYou(state: ActionState) {
    Includes(state.message, "Thank you")
  }

  /* ---------------- toast ---------------- */

  datatype Toast = NoToast | SuccessToast(text: string) | ErrorToast(text: string)

  /** The effect run on every new state. */
  function ToastFor(message: string): Toast {
    if message != "" && Includes(message, "Thank you") then SuccessToast(message)
    else if message != "" then ErrorToast(message)
    else NoToast
  }

  /**
   * A success toast exactly when the thank-you panel is shown, an error toast
   * for any other non-empty message, none for the empty one; the toast shows
   * the message itself.
   */
  lemma ToastAgreesWithPanel(state: ActionState)
    ensures ToastFor(state.message).SuccessToast? <==> ShowsThankYou(state)
    ensures ToastFor(state.message).ErrorToast? <==> state.message != "" && !ShowsThankYou(state)
    ensures ToastFor(state.message) == NoToast <==> state.message == ""
    ensures ToastFor(state.message) != NoToast ==> ToastFor(state.message).text == state.message
  {
    if state.message == "" {
      NotIncludesWithoutFirstChar(state.message, "Thank you");
    }
  }

  /* ---------------- screen ---------------- */

  /** `state.errors?.f && <p>{state.errors.f[0]}</p>`: an empty array still draws an empty paragraph. */
  function FirstError(errors: map<Field, seq<string>>, f: Field): (r: Option<string>)
    ensures r.Some? <==> f in errors
    ensures f in errors && errors[f] != [] ==> r == Some(errors[f][0])
  {
    if f !in errors then None
    else if errors[f] == [] then Some("")
    else Some(errors[f][0])
  }

  datatype Screen =
    | ThankYouPanel
    | FormScreen(hiddenId: string, nameError: Option<string>, attendingError: Option<string>, countError: Option<string>)

  /** What the component renders for a state. */
  function View(state: ActionState, invitationId: string): Screen {
    if ShowsThankYou(state) then ThankYouPanel
    else FormScreen(invitationId,
                    FirstError(state.errors, GuestName),
                    FirstError(state.errors, IsAttending),
                    FirstError(state.errors, GuestCount))
  }

  /** The first state shows the form, with no error under any field and no toast. */
  lemma InitialView(invitationId: string)
    ensures View(InitialState, invitationId) == FormScreen(invitationId, None, None, None)
    ensures ToastFor(InitialState.message) == NoToast
  {
    NotIncludesWithoutFirstChar(InitialState.message, "Thank you");
  }

  /** The view never shows what is recorded under notes or invitation_id. */
  lemma ViewIgnoresNotesAndId(state: ActionState, invitationId: string)
    ensures View(state, invitationId) == View(ActionState(state.message, state.errors - {Notes, InvitationId}), invitationId)
  {
  }

  /** The first issue of a rule, if it has one. */
  function FirstIssue(issues: seq<string>): Option<string> {
    if issues == [] then None else Some(issues[0])
  }

  /**
   * After a submission the thank-you panel appears exactly when the row was
   * stored, and every submission raises a toast, a success one exactly then.
   */
  lemma PanelIffStored(fd: FormData, reply: StoreReply, invitationId: string)
    ensures View(SubmitRsvp(fd, reply).state, invitationId) == ThankYouPanel
      <==> |Stored(SubmitRsvp(fd, reply), reply)| == 1
    ensures View(SubmitRsvp(fd, reply).state, invitationId) == ThankYouPanel
      <==> IsValid(fd) && reply == InsertOk
    ensures ToastFor(SubmitRsvp(fd, reply).state.message) != NoToast
    ensures ToastFor(SubmitRsvp(fd, reply).state.message).SuccessToast? <==> IsValid(fd) && reply == InsertOk
  {
    ThankYouIffStored(fd, reply);
    ToastAgreesWithPanel(SubmitRsvp(fd, reply).state);
  }

  /**
   * A rejected submission keeps the form on screen, showing under each
   * displayed field the first message its rule produced, and nothing under a
   * field that passed.
   */
  lemma RejectionShowsFirstIssues(fd: FormData, reply: StoreReply, invitationId: string)
    requires !IsValid(fd)
    ensures View(SubmitRsvp(fd, reply).state, invitationId) == FormScreen(invitationId,
      FirstIssue(Issues(fd, GuestName)),
      FirstIssue(Issues(fd, IsAttending)),
      FirstIssue(Issues(fd, GuestCount)))
  {
    RejectedSubmission(fd, reply);
    ValidationFailedLacksThankYou();
    RejectedView(SubmitRsvp(fd, reply).state, fd, invitationId);
  }

  /** The view of a rejection state that holds every failing field's issues. */
  lemma RejectedView(state: ActionState, fd: FormData, invitationId: string)
    requires !ShowsThankYou(state)
    requires forall f :: f in state.errors <==> Issues(fd, f) != []
    requires forall f :: f in state.errors ==> state.errors[f] == Issues(fd, f)
    ensures View(state, invitationId) == FormScreen(invitationId,
      FirstIssue(Issues(fd, GuestName)),
      FirstIssue(Issues(fd, IsAttending)),
      FirstIssue(Issues(fd, GuestCount)))
  {
  }

  /** A failed insert keeps the form on screen with no field errors. */
  lemma DatabaseErrorShowsCleanForm(fd: FormData, invitationId: string)
    requires IsValid(fd)
    ensures View(SubmitRsvp(fd, InsertError).state, invitationId) == FormScreen(invitationId, None, None, None)
    ensures ToastFor(SubmitRsvp(fd, InsertError).state.message) == ErrorToast(DatabaseError)
  {
    AcceptedSubmission(fd, InsertError);
    DatabaseErrorLacksThankYou();
  }

  /* ---------------- the mounted component ---------------- */

  /**
   * One mounted form. `state` is the value `useActionState` holds; `stored` is
   * the ghost record of the rows this form's submissions added to the table.
   */
  class RsvpForm {
    const invitationId: string
    var state: ActionState
    ghost var stored: seq<Row>

    /** At most one row is ever stored, and the panel is up exactly when it has been. */
    ghost predicate Valid()
      reads this
    {
      |stored| <= 1 && (ShowsThankYou(state) <==> |stored| == 1)
    }

    function CurrentScreen(): Screen
      reads this
    {
      View(state, invitationId)
    }

    constructor(invitationId: string)
      ensures this.invitationId == invitationId
      ensures state == InitialState && stored == []
      ensures Valid()
      ensures CurrentScreen() == FormScreen(invitationId, None, None, None)
    {
      this.invitationId := invitationId;
      state := InitialState;
      stored := [];
      new;
      InitialView(invitationId);
    }

    /**
     * Submitting the form (possible only while it is drawn): the action's
     * result replaces the state, the table gains what the insert stored, and
     * the toast for the new message is raised.
     */
    method Submit(entry: GuestEntry, reply: StoreReply) returns (toast: Toast)
      requires Valid() && CurrentScreen().FormScreen?
      modifies this
      ensures state == SubmitRsvp(FormDataOf(invitationId, entry), reply).state
      ensures stored == old(stored) + Stored(SubmitRsvp(FormDataOf(invitationId, entry), reply), reply)
      ensures toast == ToastFor(state.message) && toast != NoToast
      ensures Valid()
      ensures CurrentScreen() == ThankYouPanel <==> IsValid(FormDataOf(invitationId, entry)) && reply == InsertOk
    {
      var fd := FormDataOf(invitationId, entry);
      var sub := SubmitRsvp(fd, reply);
      PanelIffStored(fd, reply, invitationId);
      state := sub.state;
      stored := stored + Stored(sub, reply);
      toast := ToastFor(state.message);
    }
  }
}
