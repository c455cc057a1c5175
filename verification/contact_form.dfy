/** The contact form (`ContactForm.handleSubmit` and `validateForm`).

    Submitting the form reads its four fields, validates them, and either
    shows an error toast and stops, or runs the simulated send: the submit
    button shows a spinner and is disabled, and two seconds later a success
    toast appears, the form is cleared and the button restored. Here the
    toasts and DOM writes are returned as a list of effects, in order. */
module ContactForm {
  import opened EmailPattern

  /** The form's fields as `Object.fromEntries(new FormData(form))` yields
      them; a field the form lacks is falsy just like an empty one, so it is
      represented by the empty string. */
  datatype Fields = Fields(name: string, email: string, subject: string, message: string)

  datatype FormError = MissingField | MalformedEmail

  /** `validateForm`'s answer: `true`, or `false` together with the error
      whose toast it showed. */
  datatype Verdict = Accepted | Rejected(error: FormError)

  datatype ToastKind = SuccessToast | ErrorToast

  /** What submitting the form does, in order. */
  datatype Effect =
    | ShowToast(message: string, kind: ToastKind, durationMs: nat)
    | ShowSendingSpinner      // button shows "Sending..." and is disabled
    | Wait(ms: nat)           // the simulated network delay
    | ResetForm
    | RestoreSubmitButton

  /** `showToast`'s default duration. */
  const DefaultToastMs: nat := 3000
  const SendDelayMs: nat := 2000
  const SentToastMs: nat := 4000

  const MissingFieldMessage := "Please fill in all fields"
  const MalformedEmailMessage := "Please enter a valid email address"
  const SentMessage := "Message sent successfully! I'll get back to you soon."

  function ErrorMessage(e: FormError): string {
    match e
    case MissingField => MissingFieldMessage
    case MalformedEmail => MalformedEmailMessage
  }

  /** All four fields are non-empty. */
  predicate AllFilled(f: Fields) {
    f.name != "" && f.email != "" && f.subject != "" && f.message != ""
  }

  /** `validateForm`: presence of every field first, then the email shape. */
  function Validate(f: Fields): (v: Verdict)
    ensures v == Accepted <==> AllFilled(f) && MatchesEmailPattern(f.email)
    ensures v == Rejected(MissingField) <==> !AllFilled(f)
    ensures v == Rejected(MalformedEmail) <==> AllFilled(f) && !MatchesEmailPattern(f.email)
    // the presence check runs first: an empty email is never reported as malformed
    ensures f.email == "" ==> v == Rejected(MissingField)
  {
    ValidEmailMatchesPattern(f.email);
    if f.name == "" || f.email == "" || f.subject == "" || f.message == "" then
      Rejected(MissingField)
    else if !IsValidEmail(f.email) then
      Rejected(MalformedEmail)
    else
      Accepted
  }

  /** How many times the simulated send starts. */
  function SendCount(effects: seq<Effect>): nat {
    multiset(effects)[ShowSendingSpinner]
  }

  /** `handleSubmit`: a rejected form shows exactly its error toast and
      nothing else happens; an accepted form starts the send exactly once and
      ends with the success toast, a cleared form and a restored button. */
  function HandleSubmit(f: Fields): (effects: seq<Effect>)
    ensures SendCount(effects) == (if AllFilled(f) && MatchesEmailPattern(f.email) then 1 else 0)
    ensures !AllFilled(f) ==> effects == [ShowToast(MissingFieldMessage, ErrorToast, DefaultToastMs)]
    ensures AllFilled(f) && !MatchesEmailPattern(f.email) ==>
              effects == [ShowToast(MalformedEmailMessage, ErrorToast, DefaultToastMs)]
    ensures AllFilled(f) && MatchesEmailPattern(f.email) ==>
              && effects[0] == ShowSendingSpinner
              && ShowToast(SentMessage, SuccessToast, SentToastMs) in effects
              && ResetForm in effects
              && effects[|effects| - 1] == RestoreSubmitButton
  {
    match Validate(f)
    case Rejected(e) => [ShowToast(ErrorMessage(e), ErrorToast, DefaultToastMs)]
    case Accepted =>
      var sent := [ShowSendingSpinner, Wait(SendDelayMs), ShowToast(SentMessage, SuccessToast, SentToastMs),
                   ResetForm, RestoreSubmitButton];
      sent
  }

  /** The three forms used as examples of the validator's behaviour. */
  lemma SubmitExamples()
    ensures Validate(Fields("", "a@b.com", "x", "y")) == Rejected(MissingField)
    ensures Validate(Fields("A", "not-an-email", "x", "y")) == Rejected(MalformedEmail)
    ensures Validate(Fields("A", "a@b.com", "x", "y")) == Accepted
    ensures SendCount(HandleSubmit(Fields("A", "a@b.com", "x", "y"))) == 1
  {
    RejectsPlainWord();
    AcceptsSimpleAddress();
  }
}
