/** The contact form's submit handler. It reads four fields. If any field is
    absent or empty it reports "Please fill in all fields". Otherwise, if the
    address fails the e-mail pattern, it reports "Please enter a valid email
    address". Otherwise it shows the success toast and resets the form.
    Nothing is sent anywhere: the handler only simulates a submission. */
module ContactForm {
  import opened Wrappers
  import Email
  import N = Notifications

  /** The four values the handler reads from the form; `None` is a field
      the form does not provide. */
  datatype Form = Form(name: Option<string>, email: Option<string>,
                       subject: Option<string>, message: Option<string>)

  /** The form after `reset()`: every field back to its empty default. */
  const Blank := Form(Some(""), Some(""), Some(""), Some(""))

  const MissingMessage := "Please fill in all fields"
  const InvalidEmailMessage := "Please enter a valid email address"
  const SentMessage := "Message sent successfully! I'll get back to you soon."

  /** The JavaScript truth value of a field: present and not empty. */
  predicate Filled(field: Option<string>) {
    field.Some? && |field.value| > 0
  }

  function Fields(f: Form): seq<Option<string>> {
    [f.name, f.email, f.subject, f.message]
  }

  /** Every one of the four fields is filled. */
  predicate AllFilled(f: Form) {
    Filled(f.name) && Filled(f.email) && Filled(f.subject) && Filled(f.message)
  }

  /** The address as the handler tests it (empty when absent). */
  function Address(f: Form): string {
    if f.email.Some? then f.email.value else ""
  }

  /** What the handler decides. */
  datatype Verdict = Missing | InvalidEmail | Sent

  /** The decision, checked in the handler's order: presence first, then
      the e-mail pattern. */
  function Validate(f: Form): (v: Verdict)
    ensures v == Missing <==> !AllFilled(f)
    ensures v == InvalidEmail <==> AllFilled(f) && !Email.MatchesPattern(Address(f))
    ensures v == Sent <==> AllFilled(f) && Email.MatchesPattern(Address(f))
  {
    Email.MatchesPatternIffEmailOk(Address(f));
    if !Filled(f.name) || !Filled(f.email) || !Filled(f.subject) || !Filled(f.message) then
      Missing
    else if !Email.EmailOk(Address(f)) then
      InvalidEmail
    else
      Sent
  }

  /** The page around the form: the field values and the body's children,
      where toasts appear. */
  datatype Page = Page(form: Form, body: seq<N.Node>)

  /** The toast's text and type for each verdict. */
  function Report(v: Verdict): N.Notification {
    match v
    case Missing => N.Notification(MissingMessage, "error")
    case InvalidEmail => N.Notification(InvalidEmailMessage, "error")
    case Sent => N.Notification(SentMessage, "success")
  }

  /** One submit event. Exactly one toast is on the page afterwards, and
      every other child of the page is kept. A
      missing field or a bad address shows its error toast and leaves the
      form as it was; only a complete form with a valid address shows the
      success toast and clears the form. */
  function Submit(p: Page): (q: Page)
    ensures N.NotificationCount(q.body) == 1
    ensures forall n :: n in q.body[..|q.body| - 1] <==> n in p.body && !N.Selected(n)
    ensures N.ClearToasts(q.body) == N.ClearToasts(p.body)
    ensures !AllFilled(p.form) ==>
      q.body[|q.body| - 1] == N.ToastFor(MissingMessage, "error") && q.form == p.form
    ensures AllFilled(p.form) && !Email.MatchesPattern(Address(p.form)) ==>
      q.body[|q.body| - 1] == N.ToastFor(InvalidEmailMessage, "error") && q.form == p.form
    ensures AllFilled(p.form) && Email.MatchesPattern(Address(p.form)) ==>
      q.body[|q.body| - 1] == N.ToastFor(SentMessage, "success") && q.form == Blank
    ensures N.Background(q.body[|q.body| - 1].note.kind) == N.SuccessColour <==> Validate(p.form) == Sent
  {
    var v := Validate(p.form);
    var note := Report(v);
    Page(if v == Sent then Blank else p.form, N.Show(p.body, note.message, note.kind))
  }

  /** The presence check comes first: an empty or absent address is reported
      as a missing field, never as an invalid address, whatever the other
      fields hold. */
  lemma EmptyEmailIsMissing(f: Form)
    requires f.email == None || f.email == Some("")
    ensures Validate(f) == Missing
  {
  }

  /** Each of the four fields, left empty, yields the missing-field verdict. */
  lemma AnyEmptyFieldIsMissing(f: Form, i: nat)
    requires i < 4 && !Filled(Fields(f)[i])
    ensures Validate(f) == Missing
    ensures Submit(Page(f, [])).body == [N.ToastFor(MissingMessage, "error")]
  {
  }

  /** A form that has just been sent is blank, so submitting again reports
      missing fields and leaves the form blank. */
  lemma ResubmitAfterSent(p: Page)
    requires Validate(p.form) == Sent
    ensures Validate(Submit(p).form) == Missing
    ensures Submit(Submit(p)).form == Blank
  {
  }

  /** The scenario of a bad address: name "A", e-mail "bad", subject "S" and
      message "M" are rejected as an invalid address and the form is kept. */
  lemma BadAddressScenario(body: seq<N.Node>)
    ensures Validate(Form(Some("A"), Some("bad"), Some("S"), Some("M"))) == InvalidEmail
    ensures Submit(Page(Form(Some("A"), Some("bad"), Some("S"), Some("M")), body)).form
         == Form(Some("A"), Some("bad"), Some("S"), Some("M"))
  {
  }

  /** The scenario of a complete form: the success toast is shown and the
      form is cleared. */
  lemma GoodFormScenario(body: seq<N.Node>)
    ensures Validate(Form(Some("A"), Some("a@b.co"), Some("S"), Some("M"))) == Sent
    ensures Submit(Page(Form(Some("A"), Some("a@b.co"), Some("S"), Some("M")), body)).form == Blank
  {
    Email.AcceptedExamples();
    Email.MatchesPatternIffEmailOk("a@b.co");
  }
}
