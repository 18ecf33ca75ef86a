/**
 The contact form as a whole: the submit handler, which validates every
 field and either starts the simulated send or points at the first error,
 and the delayed completion of a send, which shows the success notification,
 resets the form and restores the submit button.
 */
module ContactForm {
  import opened Options
  import opened Text
  import opened Validator

  const SendingText := "Sending..."
  const SuccessMessage := "Message sent successfully! I'll get back to you soon."

  datatype Severity = Info | Success | Error

  /** A toast handed to the notification presenter. */
  datatype Notification = Notification(message: string, severity: Severity)

  datatype SubmitButton = SubmitButton(text: string, disabled: bool)

  /** The four inputs the form looks up by id; one missing from the page is None. */
  datatype Inputs = Inputs(name: Option<Field>, email: Option<Field>,
                           subject: Option<Field>, message: Option<Field>)

  /** The form's inputs, its submit button, the sends whose completion timer
      has not fired yet (each remembers the button text it captured, oldest
      first), and the notifications shown so far. */
  datatype Form = Form(
    inputs: Inputs,
    button: SubmitButton,
    pending: seq<string>,
    notifications: seq<Notification>)

  /** Accepted: the send was started. Rejected: the input scrolled into view, if any. */
  datatype Outcome = Accepted | Rejected(scrollTo: Option<FieldKind>)

  datatype Submitted = Submitted(form: Form, outcome: Outcome)

  function Input(ins: Inputs, k: FieldKind): Option<Field> {
    match k
    case Name => ins.name
    case Email => ins.email
    case Subject => ins.subject
    case Message => ins.message
  }

  /** Place of each input on the page, which is also the order in which the
      submit handler visits them (the key order of its `formInputs`). */
  function Position(k: FieldKind): nat {
    match k
    case Name => 0
    case Email => 1
    case Subject => 2
    case Message => 3
  }

  /** The input of kind `k` exists and its text passes validation, or it does
      not exist at all (the submit handler skips missing inputs). */
  predicate Passes(ins: Inputs, k: FieldKind) {
    Input(ins, k).Some? ==> Validate(k, Input(ins, k).value.value).valid
  }

  /** The input of kind `k` exists and carries the `error` class. */
  predicate Flagged(ins: Inputs, k: FieldKind) {
    Input(ins, k).Some? && Input(ins, k).value.hasError
  }

  /** `k` is the first input, in page order, whose text fails validation. */
  predicate FirstInvalid(ins: Inputs, k: FieldKind) {
    !Passes(ins, k) && forall j :: Position(j) < Position(k) ==> Passes(ins, j)
  }

  /** The four named inputs are all there is to check. */
  lemma EveryKindPasses(ins: Inputs)
    ensures (forall k :: Passes(ins, k)) <==>
              Passes(ins, Name) && Passes(ins, Email) && Passes(ins, Subject) && Passes(ins, Message)
  {
    if Passes(ins, Name) && Passes(ins, Email) && Passes(ins, Subject) && Passes(ins, Message) {
      forall k ensures Passes(ins, k) {
        match k
        case Name =>
        case Email =>
        case Subject =>
        case Message =>
      }
    }
  }

  /** One step of the validation loop: a missing input is skipped and counts
      as passing; a present one is validated and painted. */
  function Visit(k: FieldKind, f: Option<Field>): (r: (Option<Field>, bool))
    ensures r.0.Some? <==> f.Some?
    ensures f.Some? ==> r.0.value == ValidateField(k, f.value).field
                         && r.1 == Validate(k, f.value.value).valid
    ensures f.None? ==> r.1
  {
    if f.None? then (None, true)
    else
      var v := ValidateField(k, f.value);
      (Some(v.field), v.valid)
  }

  /** The validation loop of the submit handler: all four inputs are visited
      and painted even after one has failed; the form is valid only if every
      visit passed. */
  function ValidateInputs(ins: Inputs): (r: (Inputs, bool))
    ensures forall k :: Input(r.0, k).Some? <==> Input(ins, k).Some?
    ensures forall k :: Input(ins, k).Some? ==>
              Input(r.0, k).value == ValidateField(k, Input(ins, k).value).field
    ensures r.1 <==> forall k :: Passes(ins, k)
  {
    var painted := Inputs(Visit(Name, ins.name).0, Visit(Email, ins.email).0,
                          Visit(Subject, ins.subject).0, Visit(Message, ins.message).0);
    var ok := Visit(Name, ins.name).1 && Visit(Email, ins.email).1
              && Visit(Subject, ins.subject).1 && Visit(Message, ins.message).1;
    VisitedEveryInput(ins, painted);
    VisitVerdicts(ins, ok);
    (painted, ok)
  }

  lemma VisitVerdicts(ins: Inputs, ok: bool)
    requires ok == (Visit(Name, ins.name).1 && Visit(Email, ins.email).1
                    && Visit(Subject, ins.subject).1 && Visit(Message, ins.message).1)
    ensures ok <==> forall k :: Passes(ins, k)
  {
    EveryKindPasses(ins);
  }

  /** Each slot of `painted` is the visit of the same slot of `ins`. */
  lemma VisitedEveryInput(ins: Inputs, painted: Inputs)
    requires painted == Inputs(Visit(Name, ins.name).0, Visit(Email, ins.email).0,
                               Visit(Subject, ins.subject).0, Visit(Message, ins.message).0)
    ensures forall k :: Input(painted, k).Some? <==> Input(ins, k).Some?
    ensures forall k :: Input(ins, k).Some? ==>
              Input(painted, k).value == ValidateField(k, Input(ins, k).value).field
  {
    forall k ensures Input(painted, k) == Visit(k, Input(ins, k)).0 {
      match k
      case Name =>
      case Email =>
      case Subject =>
      case Message =>
    }
  }

  /** `form.querySelector('.error')`: the first input, in page order, that
      carries the `error` class. */
  function FirstError(ins: Inputs): (r: Option<FieldKind>)
    ensures r.None? ==> forall k :: !Flagged(ins, k)
    ensures r.Some? ==> Flagged(ins, r.value)
                        && forall j :: Position(j) < Position(r.value) ==> !Flagged(ins, j)
  {
    if Flagged(ins, Name) then Some(Name)
    else if Flagged(ins, Email) then Some(Email)
    else if Flagged(ins, Subject) then Some(Subject)
    else if Flagged(ins, Message) then Some(Message)
    else None
  }

  /** The submit handler. Every present input is validated. If all pass, the
      button shows "Sending..." and is disabled and a completion is queued
      that remembers the button's text; otherwise nothing but the inputs
      changes and the first invalid input, in page order, is scrolled to. */
  function Submit(form: Form): (r: Submitted)
    ensures forall k :: Input(r.form.inputs, k).Some? <==> Input(form.inputs, k).Some?
    ensures forall k :: Input(form.inputs, k).Some? ==>
              Input(r.form.inputs, k).value == ValidateField(k, Input(form.inputs, k).value).field
    ensures r.outcome.Accepted? <==> forall k :: Passes(form.inputs, k)
    ensures r.form.notifications == form.notifications
    ensures r.outcome.Accepted? ==>
              && r.form.button == SubmitButton(SendingText, true)
              && r.form.pending == form.pending + [form.button.text]
    ensures r.outcome.Rejected? ==>
              && r.form.button == form.button
              && r.form.pending == form.pending
              && r.outcome.scrollTo.Some?
              && FirstInvalid(form.inputs, r.outcome.scrollTo.value)
  {
    var (painted, ok) := ValidateInputs(form.inputs);
    if ok then
      var sending := form.(inputs := painted,
                           button := SubmitButton(SendingText, true),
                           pending := form.pending + [form.button.text]);
      Submitted(sending, Accepted)
    else
      assert forall k :: Flagged(painted, k) <==> !Passes(form.inputs, k);
      Submitted(form.(inputs := painted), Rejected(FirstError(painted)))
  }

  /** `form.reset()`: every input goes back to its default, empty, text; the
      `error` classes and error elements are not part of a reset. */
  function Reset(ins: Inputs): (r: Inputs)
    ensures forall k :: Input(r, k).Some? <==> Input(ins, k).Some?
    ensures forall k :: Input(ins, k).Some? ==> Input(r, k).value == Input(ins, k).value.(value := "")
  {
    var clear := (f: Option<Field>) => if f.Some? then Some(f.value.(value := "")) else None;
    Inputs(clear(ins.name), clear(ins.email), clear(ins.subject), clear(ins.message))
  }

  /** The completion timer of the oldest pending send: one success
      notification, a reset form, and the button's captured text and enabled
      state restored. With no send pending there is no timer to fire. */
  function Complete(form: Form): (r: Form)
    ensures form.pending == [] ==> r == form
    ensures form.pending != [] ==>
              && r.notifications == form.notifications + [Notification(SuccessMessage, Success)]
              && r.button == SubmitButton(form.pending[0], false)
              && r.pending == form.pending[1..]
              && r.inputs == Reset(form.inputs)
  {
    if form.pending == [] then form
    else
      Form(Reset(form.inputs),
           SubmitButton(form.pending[0], false),
           form.pending[1..],
           form.notifications + [Notification(SuccessMessage, Success)])
  }

  /** A form is idle when no send is pending and its button is usable. */
  predicate Idle(form: Form) {
    form.pending == [] && !form.button.disabled
  }

  /** Submitting an idle form whose inputs all pass disables the button while
      sending; the completion then gives the button back exactly as it was,
      empties every input, leaves none marked as an error, and adds exactly
      one notification, a success. */
  lemma SubmitCompleteRoundTrip(form: Form)
    requires Idle(form)
    requires forall k :: Passes(form.inputs, k)
    ensures var s := Submit(form);
            && s.outcome == Accepted
            && s.form.button.disabled && s.form.button.text == SendingText
            && s.form.notifications == form.notifications
    ensures var c := Complete(Submit(form).form);
            && Idle(c)
            && c.button == form.button
            && c.notifications == form.notifications + [Notification(SuccessMessage, Success)]
            && forall k :: (Input(c.inputs, k).Some? <==> Input(form.inputs, k).Some?)
                           && (Input(c.inputs, k).Some? ==>
                                 Input(c.inputs, k).value.value == "" && !Input(c.inputs, k).value.hasError)
  {
    var s := Submit(form);
    assert s.form.pending == [form.button.text];
  }

  /** Submitting with a blank message and the other three inputs valid keeps
      the form usable, marks the message input alone, scrolls to it, and
      shows nothing. */
  lemma BlankMessageRejected(form: Form)
    requires form.inputs.name.Some? && form.inputs.email.Some?
    requires form.inputs.subject.Some? && form.inputs.message.Some?
    requires Passes(form.inputs, Name) && Passes(form.inputs, Email) && Passes(form.inputs, Subject)
    requires AllWhitespace(form.inputs.message.value.value)
    ensures var s := Submit(form);
            && s.outcome == Rejected(Some(Message))
            && s.form.button == form.button
            && s.form.notifications == form.notifications
            && (forall k :: Flagged(s.form.inputs, k) <==> k == Message)
            && (s.form.inputs.message.value.errorElement.Some? ==>
                  s.form.inputs.message.value.errorElement.value == ErrorLabel("Message is required", true))
  {
    BlankIsRequired(Message, form.inputs.message.value.value);
    var s := Submit(form);
    assert FirstInvalid(form.inputs, Message);
    assert forall k :: FirstInvalid(form.inputs, k) ==> k == Message;
  }
}
