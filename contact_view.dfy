/** The contact form (src/app/components/contact-view.tsx): the e-mail pattern, the
    validation of the three fields, when an error is shown, and how typing, leaving a field and
    submitting change the form's state. Sending is split in two: `Submit` runs up to the
    request, and `Settle` takes the request's outcome as a parameter. */
module ContactView {
  import opened Wrappers
  import opened Strings
  import opened Sequences

  // ---------------------------------------------------------------------------------------
  // EMAIL_RE
  // ---------------------------------------------------------------------------------------

  /** A character `[^\s@]` accepts. */
  predicate IsPlain(c: char) {
    !IsWhitespace(c) && c != '@'
  }

  /** A non-empty run of `[^\s@]+`. */
  predicate PlainRun(t: string) {
    t != [] && forall k :: 0 <= k < |t| ==> IsPlain(t[k])
  }

  /** `/^[^\s@]+@[^\s@]+\.[^\s@]+$/` read as a pattern: `s` splits at an `@` (index `i`) and a
      later `.` (index `j`) into three non-empty runs of characters that are neither
      whitespace nor `@`. */
  predicate EmailPattern(s: string) {
    exists i, j :: 0 <= i < j < |s| && s[i] == '@' && s[j] == '.'
                   && PlainRun(s[..i]) && PlainRun(s[i + 1..j]) && PlainRun(s[j + 1..])
  }

  /** `d` has a `.` that is neither its first nor its last character. */
  predicate HasInnerDot(d: string) {
    exists k :: 1 <= k < |d| - 1 && d[k] == '.'
  }

  predicate NoWhitespace(s: string) {
    forall k :: 0 <= k < |s| ==> !IsWhitespace(s[k])
  }

  /** `EMAIL_RE.test(s)`, by what it amounts to: no whitespace, exactly one `@`, something
      before it, and after it a `.` that is neither the first nor the last character. */
  predicate IsEmail(s: string) {
    && NoWhitespace(s)
    && '@' in s
    && var i := FirstIndex(s, '@');
       i > 0 && '@' !in s[i + 1..] && HasInnerDot(s[i + 1..])
  }

  /** The direct reading of the pattern and the description agree on every string. */
  lemma EmailPatternIff(s: string)
    ensures EmailPattern(s) <==> IsEmail(s)
  {
    if EmailPattern(s) {
      PatternIsEmail(s);
    }
    if IsEmail(s) {
      EmailIsPattern(s);
    }
  }

  lemma PatternIsEmail(s: string)
    requires EmailPattern(s)
    ensures IsEmail(s)
  {
    var i, j :| 0 <= i < j < |s| && s[i] == '@' && s[j] == '.'
                && PlainRun(s[..i]) && PlainRun(s[i + 1..j]) && PlainRun(s[j + 1..]);
    PatternPartsCover(s, i, j);
    assert FirstIndex(s, '@') == i;
    var d := s[i + 1..];
    assert d[j - i - 1] == '.';
    assert '@' !in d by {
      assert forall k :: 0 <= k < |d| ==> d[k] == s[i + 1 + k];
    }
  }

  lemma EmailIsPattern(s: string)
    requires IsEmail(s)
    ensures EmailPattern(s)
  {
    var i := FirstIndex(s, '@');
    var d := s[i + 1..];
    var k :| 1 <= k < |d| - 1 && d[k] == '.';
    var j := i + 1 + k;
    assert s[j] == '.';
    forall m | 0 <= m < |s| && m != i
      ensures IsPlain(s[m])
    {
      if m > i {
        assert s[m] == d[m - i - 1];
      }
    }
    assert PlainRun(s[..i]) by {
      assert forall m :: 0 <= m < i ==> s[..i][m] == s[m];
    }
    assert PlainRun(s[i + 1..j]);
    assert PlainRun(s[j + 1..]);
  }

  /** The three runs of a pattern match, with the `@` and the `.`, are all of `s`: no
      whitespace anywhere, and the only `@` is the one at `i`. */
  lemma PatternPartsCover(s: string, i: int, j: int)
    requires 0 <= i < j < |s| && s[i] == '@' && s[j] == '.'
    requires PlainRun(s[..i]) && PlainRun(s[i + 1..j]) && PlainRun(s[j + 1..])
    ensures NoWhitespace(s)
    ensures forall m :: 0 <= m < |s| && s[m] == '@' ==> m == i
  {
    forall m | 0 <= m < |s| && m != i
      ensures IsPlain(s[m])
    {
      if m < i {
        assert s[m] == s[..i][m];
      } else if i < m < j {
        assert s[m] == s[i + 1..j][m - i - 1];
      } else if m > j {
        assert s[m] == s[j + 1..][m - j - 1];
      }
    }
  }

  // ---------------------------------------------------------------------------------------
  // validate
  // ---------------------------------------------------------------------------------------

  datatype Field = Name | Email | Message

  /** `FormData`: the three inputs as typed. */
  datatype FormData = FormData(name: string, email: string, message: string) {
    function Get(f: Field): string {
      match f
      case Name => name
      case Email => email
      case Message => message
    }

    /** `{ ...prev, [f]: value }`. */
    function With(f: Field, value: string): (r: FormData)
      ensures r.Get(f) == value
      ensures forall g :: g != f ==> r.Get(g) == Get(g)
    {
      match f
      case Name => this.(name := value)
      case Email => this.(email := value)
      case Message => this.(message := value)
    }
  }

  const EmptyForm := FormData("", "", "")

  /** `FormErrors`: at most one message per field. */
  datatype FormErrors = FormErrors(name: Option<string>, email: Option<string>, message: Option<string>) {
    function Get(f: Field): Option<string> {
      match f
      case Name => name
      case Email => email
      case Message => message
    }

    /** `Object.keys(errors).length === 0`. */
    predicate IsEmpty() {
      name.None? && email.None? && message.None?
    }
  }

  const NameRequired := "Please enter your name."
  const NameTooShort := "Name should be at least 2 characters."
  const EmailRequired := "Please enter your email."
  const EmailInvalid := "Please enter a valid email address."
  const MessageRequired := "Please enter a message."
  const MessageTooShort := "Message should be at least 10 characters."

  /** The check of one field, on its trimmed text: empty gets the "Please enter" message;
      otherwise `bad` decides whether it gets the second message. */
  function FieldCheck(trimmed: string, bad: bool, required: string, invalid: string): (r: Option<string>)
    ensures trimmed == [] ==> r == Some(required)
    ensures trimmed != [] && bad ==> r == Some(invalid)
    ensures trimmed != [] && !bad ==> r == None
  {
    if trimmed == [] then Some(required)
    else if bad then Some(invalid)
    else None
  }

  /** `validate(form)`. The length thresholds are on `.length`, which counts UTF-16 code
      units. */
  function Validate(form: FormData): FormErrors {
    var name := Trim(form.name);
    var email := Trim(form.email);
    var message := Trim(form.message);
    FormErrors(
      FieldCheck(name, Utf16Length(name) < 2, NameRequired, NameTooShort),
      FieldCheck(email, !IsEmail(email), EmailRequired, EmailInvalid),
      FieldCheck(message, Utf16Length(message) < 10, MessageRequired, MessageTooShort))
  }

  /** A form passes exactly when its trimmed name is at least 2 UTF-16 code units long, its
      trimmed e-mail matches the pattern, and its trimmed message is at least 10 code units
      long. */
  lemma ValidateIff(form: FormData)
    ensures Validate(form).IsEmpty() <==>
              && Utf16Length(Trim(form.name)) >= 2
              && EmailPattern(Trim(form.email))
              && Utf16Length(Trim(form.message)) >= 10
  {
    EmailPatternIff(Trim(form.email));
  }

  /** A character outside the Basic Multilingual Plane counts twice: a one-character name
      such as U+1F600 is long enough, and five such characters make a long-enough message,
      while a single character of the Basic Multilingual Plane is too short a name. */
  lemma AstralCharactersCountTwice(email: string)
    ensures Validate(FormData("\U{1F600}", email, "\U{1F600}\U{1F600}\U{1F600}\U{1F600}\U{1F600}")).name == None
    ensures Validate(FormData("\U{1F600}", email, "\U{1F600}\U{1F600}\U{1F600}\U{1F600}\U{1F600}")).message == None
    ensures Validate(FormData("J", email, "")).name == Some(NameTooShort)
  {
    var face := "\U{1F600}";
    var faces := "\U{1F600}\U{1F600}\U{1F600}\U{1F600}\U{1F600}";
    assert Trim(face) == face;
    assert Trim(faces) == faces;
    assert Utf16Length(faces) == 10;
  }

  /** A field that is empty or only whitespace is reported as missing, not as too short or
      malformed. */
  lemma BlankFieldsAreMissing(form: FormData)
    ensures AllWhitespace(form.name) ==> Validate(form).name == Some(NameRequired)
    ensures AllWhitespace(form.email) ==> Validate(form).email == Some(EmailRequired)
    ensures AllWhitespace(form.message) ==> Validate(form).message == Some(MessageRequired)
  {
    TrimEmptyIff(form.name);
    TrimEmptyIff(form.email);
    TrimEmptyIff(form.message);
  }

  /** Each field's message depends on that field alone: changing one field leaves the
      others' messages as they were. */
  lemma ValidateIsPerField(form: FormData, f: Field, value: string, g: Field)
    requires g != f
    ensures Validate(form.With(f, value)).Get(g) == Validate(form).Get(g)
  {
  }

  // ---------------------------------------------------------------------------------------
  // what is shown
  // ---------------------------------------------------------------------------------------

  /** `touched`: which fields the user has left at least once. */
  datatype Touched = Touched(name: bool, email: bool, message: bool) {
    function Get(f: Field): bool {
      match f
      case Name => name
      case Email => email
      case Message => message
    }

    function With(f: Field): (r: Touched)
      ensures r.Get(f)
      ensures forall g :: g != f ==> r.Get(g) == Get(g)
    {
      match f
      case Name => this.(name := true)
      case Email => this.(email := true)
      case Message => this.(message := true)
    }
  }

  const NoneTouched := Touched(false, false, false)
  const AllTouched := Touched(true, true, true)

  /** `fieldError(f)`: the field's message, shown only once the field has been touched. */
  function FieldError(touched: Touched, form: FormData, f: Field): (r: Option<string>)
    ensures r.Some? <==> touched.Get(f) && Validate(form).Get(f).Some?
    ensures r.Some? ==> r == Validate(form).Get(f)
  {
    if touched.Get(f) then Validate(form).Get(f) else None
  }

  /** The submit button is disabled exactly while a request is out or while the form does not
      pass validation. */
  function SubmitDisabled(isSubmitting: bool, form: FormData): (r: bool)
    ensures r <==> (isSubmitting || !(
              && Utf16Length(Trim(form.name)) >= 2
              && EmailPattern(Trim(form.email))
              && Utf16Length(Trim(form.message)) >= 10))
  {
    ValidateIff(form);
    isSubmitting || !Validate(form).IsEmpty()
  }

  /** The cleared form after a message is sent shows no error, and cannot be sent again until
      something is typed. */
  lemma ClearedFormIsQuiet(f: Field)
    ensures FieldError(NoneTouched, EmptyForm, f) == None
    ensures SubmitDisabled(false, EmptyForm)
  {
    BlankFieldsAreMissing(EmptyForm);
  }

  // ---------------------------------------------------------------------------------------
  // the request
  // ---------------------------------------------------------------------------------------

  /** What became of the request. `Rejected` is a response that is not `ok`, with the
      `message` of its JSON body if there was one; `Threw` is an exception from `fetch`, with
      its message when it is an `Error` (an `Error`'s message may be empty). */
  datatype Outcome = Delivered | Rejected(serverMessage: Option<string>) | Threw(errorMessage: Option<string>)

  const SentMessage := "Thanks! Your message has been sent ✅"
  const RejectedFallback := "Something went wrong while sending your message. Please try again."
  const ThrownFallback := "Something went wrong. Please try again."

  /** The text `submitError` gets for a failed request. A rejection becomes an `Error` whose
      message is the server's non-empty message or the rejection fallback; an exception's
      own message is kept as it is, even when empty, and only a non-`Error` gets the
      generic fallback. */
  function FailureText(outcome: Outcome): (r: string)
    requires !outcome.Delivered?
    ensures outcome.Rejected? ==> r != []
    ensures outcome.Rejected? && outcome.serverMessage.Some? && outcome.serverMessage.value != [] ==>
              r == outcome.serverMessage.value
    ensures outcome.Rejected? && (outcome.serverMessage.None? || outcome.serverMessage.value == []) ==>
              r == RejectedFallback
    ensures outcome.Threw? && outcome.errorMessage.Some? ==> r == outcome.errorMessage.value
    ensures outcome == Threw(None) ==> r == ThrownFallback
  {
    match outcome
    case Rejected(m) => if m.Some? && m.value != [] then m.value else RejectedFallback
    case Threw(m) => m.GetOr(ThrownFallback)
  }

  /** The status banner under the form: `Shown(isError, text)` or nothing. */
  datatype Banner = NoBanner | Shown(isError: bool, text: string)

  /** The banner for the two status texts. It shows when either text is non-empty, in the
      error colours exactly when the error text is non-empty; its text is the error whenever
      there is one, even an empty one, and the thanks otherwise. */
  function StatusBanner(submitError: Option<string>, submitSuccess: Option<string>): (r: Banner)
    ensures r.Shown? <==>
              (submitError.Some? && submitError.value != []) || (submitSuccess.Some? && submitSuccess.value != [])
    ensures r.Shown? ==> (r.isError <==> submitError.Some? && submitError.value != [])
    ensures r.Shown? && submitError.Some? ==> r.text == submitError.value
    ensures r.Shown? && submitError.None? ==> submitSuccess.Some? && r.text == submitSuccess.value
  {
    var errorShown := submitError.Some? && submitError.value != [];
    var successShown := submitSuccess.Some? && submitSuccess.value != [];
    if !errorShown && !successShown then NoBanner
    else Shown(errorShown, if submitError.Some? then submitError.value else submitSuccess.value)
  }

  /** After a settled request (both texts were cleared by `Submit`): a delivery thanks the
      visitor, a rejection shows an error, and an exception shows its message as an error
      unless that message is empty, in which case nothing shows at all. */
  lemma SettledBanner(outcome: Outcome)
    ensures outcome.Delivered? ==> StatusBanner(None, Some(SentMessage)) == Shown(false, SentMessage)
    ensures outcome.Rejected? ==>
              StatusBanner(Some(FailureText(outcome)), None) == Shown(true, FailureText(outcome))
    ensures outcome == Threw(Some("")) ==> StatusBanner(Some(FailureText(outcome)), None) == NoBanner
    ensures outcome.Threw? && FailureText(outcome) != [] ==>
              StatusBanner(Some(FailureText(outcome)), None) == Shown(true, FailureText(outcome))
  {
  }

  /** The form's state. */
  class ContactForm {
    var formData: FormData
    var touched: Touched
    var isSubmitting: bool
    var submitError: Option<string>
    var submitSuccess: Option<string>

    constructor()
      ensures formData == EmptyForm && touched == NoneTouched
      ensures !isSubmitting && submitError == None && submitSuccess == None
    {
      formData := EmptyForm;
      touched := NoneTouched;
      isSubmitting := false;
      submitError := None;
      submitSuccess := None;
    }

    /** Typing into field `f`: only that field changes, and both banners go away. The inputs
        are disabled while a request is out. */
    method HandleChange(f: Field, value: string)
      requires !isSubmitting
      modifies this
      ensures formData == old(formData).With(f, value)
      ensures submitError == None && submitSuccess == None
      ensures touched == old(touched) && isSubmitting == old(isSubmitting)
    {
      formData := formData.With(f, value);
      submitError := None;
      submitSuccess := None;
    }

    /** Leaving field `f` marks it touched. */
    method HandleBlur(f: Field)
      modifies this
      ensures touched == old(touched).With(f)
      ensures formData == old(formData) && isSubmitting == old(isSubmitting)
      ensures submitError == old(submitError) && submitSuccess == old(submitSuccess)
    {
      touched := touched.With(f);
    }

    /** `handleSubmit` up to the request: both banners go away and every field is marked
        touched; an invalid form stops there, before any request. `sent` says whether the
        request went out. */
    method Submit() returns (sent: bool)
      requires !isSubmitting
      modifies this
      ensures sent <==> Validate(old(formData)).IsEmpty()
      ensures touched == AllTouched && formData == old(formData)
      ensures submitError == None && submitSuccess == None
      ensures isSubmitting == sent
    {
      submitError := None;
      submitSuccess := None;
      touched := AllTouched;
      sent := Validate(formData).IsEmpty();
      if sent {
        isSubmitting := true;
      }
    }

    /** The rest of `handleSubmit`, once the request has an outcome. Delivered, the form is
        cleared, nothing is touched and the thanks banner shows; otherwise the form is kept
        and the error banner shows. Either way the request is no longer out. */
    method Settle(outcome: Outcome)
      requires isSubmitting
      modifies this
      ensures !isSubmitting
      ensures outcome.Delivered? ==>
                formData == EmptyForm && touched == NoneTouched
                && submitSuccess == Some(SentMessage) && submitError == old(submitError)
      ensures !outcome.Delivered? ==>
                formData == old(formData) && touched == old(touched)
                && submitError == Some(FailureText(outcome)) && submitSuccess == old(submitSuccess)
    {
      if outcome.Delivered? {
        submitSuccess := Some(SentMessage);
        formData := EmptyForm;
        touched := NoneTouched;
      } else {
        submitError := Some(FailureText(outcome));
      }
      isSubmitting := false;
    }
  }
}
