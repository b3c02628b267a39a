/** The submit handler of `setupContactForm` (index.js:212-263): the three
    fields must be filled in, the email must match
    `^[^\s@]+@[^\s@]+\.[^\s@]+$`, and an accepted form is handed to the mail
    client as a `mailto:` link while the submit button shows a busy state. */
module ContactForm {
  import opened Wrappers
  import opened Strings
  import opened Mailto

  /** The form's `name`, `email` and `message` values; a missing field is
      the empty string, which the handler treats the same way. */
  datatype Fields = Fields(name: string, email: string, message: string)

  const Recipient := "hello@fffadvising.com"
  const MissingFieldsText := "Please fill in all required fields."
  const InvalidEmailText := "Please enter a valid email address."
  const SentText := "Thank you! Your message has been sent. Expect a reply within one business day."
  const FailedText := "There was an error sending your message. Please try again or contact us directly."
  const SendingText := "Sending..."
  const ErrorColor := "var(--rose)"
  const SuccessColor := "var(--moss-green)"

  /** ECMAScript's `\s`: the WhiteSpace and LineTerminator code points. */
  predicate IsWhitespace(c: char) {
    || c == '\t' || c == '\n' || c == '\U{000B}' || c == '\U{000C}' || c == '\r' || c == ' '
    || c == '\U{00A0}' || c == '\U{1680}' || '\U{2000}' <= c <= '\U{200A}'
    || c == '\U{2028}' || c == '\U{2029}' || c == '\U{202F}' || c == '\U{205F}'
    || c == '\U{3000}' || c == '\U{FEFF}'
  }

  /** The class `[^\s@]`. */
  predicate EmailChar(c: char) {
    !IsWhitespace(c) && c != '@'
  }

  predicate AllEmailChars(s: string) {
    forall k :: 0 <= k < |s| ==> EmailChar(s[k])
  }

  /** What the pattern `^[^\s@]+@[^\s@]+\.[^\s@]+$` matches: a non-empty run
      of the class, `@`, a non-empty run, `.`, a non-empty run. */
  ghost predicate PatternMatches(s: string) {
    exists i, j :: 0 < i && i + 1 < j && j + 1 < |s| && s[i] == '@' && s[j] == '.' &&
      AllEmailChars(s[..i]) && AllEmailChars(s[i + 1..j]) && AllEmailChars(s[j + 1..])
  }

  /** `emailRegex.test(email)`, computed: the text before the first `@` is a
      non-empty run of the class, and the text after it is a run of the
      class with a `.` that is neither its first nor its last character. */
  predicate ValidEmail(s: string) {
    match IndexOf(s, '@')
    case None => false
    case Some(at) =>
      var domain := s[at + 1..];
      0 < at && AllEmailChars(s[..at]) && AllEmailChars(domain) &&
      exists j :: 0 < j < |domain| - 1 && domain[j] == '.'
  }

  /** Every accepted address has the shape the pattern describes. */
  lemma ValidEmailMatches(s: string)
    requires ValidEmail(s)
    ensures PatternMatches(s)
  {
    var at := IndexOf(s, '@').value;
    var domain := s[at + 1..];
    var d :| 0 < d < |domain| - 1 && domain[d] == '.';
    var j := at + 1 + d;
    assert s[at + 1..j] == domain[..d];
    assert s[j + 1..] == domain[d + 1..];
    assert s[j] == '.';
    assert AllEmailChars(s[at + 1..j]);
    assert AllEmailChars(s[j + 1..]);
  }

  /** Every address the pattern matches is accepted: its `@` is the first
      one, and the dot lies strictly inside the domain. */
  lemma MatchesValidEmail(s: string, i: nat, j: nat)
    requires 0 < i && i + 1 < j && j + 1 < |s| && s[i] == '@' && s[j] == '.'
    requires AllEmailChars(s[..i]) && AllEmailChars(s[i + 1..j]) && AllEmailChars(s[j + 1..])
    ensures ValidEmail(s)
  {
    assert '@' !in s[..i];
    IndexOfAfter(s[..i], '@', s[i + 1..]);
    assert s == s[..i] + ['@'] + s[i + 1..];
    var domain := s[i + 1..];
    assert AllEmailChars(domain) by {
      forall k | 0 <= k < |domain| ensures EmailChar(domain[k]) {
        if k < j - i - 1 {
          assert domain[k] == s[i + 1..j][k];
        } else if k > j - i - 1 {
          assert domain[k] == s[j + 1..][k - (j - i)];
        }
      }
    }
    assert domain[j - i - 1] == '.';
  }

  /** The computed check accepts exactly what the pattern matches. */
  lemma ValidEmailIffPattern(s: string)
    ensures ValidEmail(s) <==> PatternMatches(s)
  {
    if ValidEmail(s) {
      ValidEmailMatches(s);
    }
    if PatternMatches(s) {
      var i: nat, j: nat :| 0 < i && i + 1 < j && j + 1 < |s| && s[i] == '@' && s[j] == '.' &&
        AllEmailChars(s[..i]) && AllEmailChars(s[i + 1..j]) && AllEmailChars(s[j + 1..]);
      MatchesValidEmail(s, i, j);
    }
  }

  /** How the handler ends: rejected before anything is sent, or accepted
      with the `mailto:` link it navigates to. */
  datatype Outcome = MissingFields | InvalidEmail | Accepted(link: string)

  function Subject(name: string): string {
    "FFF Advising Contact: " + name
  }

  function Body(f: Fields): string {
    "Name: " + f.name + "\nEmail: " + f.email + "\n\nMessage:\n" + f.message
  }

  /** Validation and link construction (index.js:219-243). The form is
      rejected with no link when a field is empty, then when the email does
      not match the pattern; an accepted form's link, read as a `mailto:` URI,
      is addressed to the practice and carries the subject and body texts. */
  function Submit(f: Fields): (r: Outcome)
    ensures r == MissingFields <==> f.name == [] || f.email == [] || f.message == []
    ensures r == InvalidEmail <==> f.name != [] && f.email != [] && f.message != [] && !PatternMatches(f.email)
    ensures r.Accepted? ==>
      Parse(r.link) == Some(MailtoUri(Recipient, [Header("subject", Subject(f.name)), Header("body", Body(f))]))
  {
    ValidEmailIffPattern(f.email);
    if f.name == [] || f.email == [] || f.message == [] then MissingFields
    else if !ValidEmail(f.email) then InvalidEmail
    else
      ParseLink(Recipient, Subject(f.name), Body(f));
      Accepted(Link(Recipient, Subject(f.name), Body(f)))
  }

  /** The submit button (`sl-button[type="submit"]`): its text and its
      `disabled` attribute. */
  class SubmitButton {
    var text: string
    var disabled: bool

    constructor (text: string)
      ensures this.text == text && !disabled
    {
      this.text := text;
      disabled := false;
    }
  }

  /** The form as the handler sees it: its field values, the response
      element's text and colour, the page's location and the submit button. */
  class ContactFormView {
    var fields: Fields
    var response: string
    var responseColor: string
    var location: Option<string>
    const button: SubmitButton
    /** The button's text and `disabled` flag while the link is handed off. */
    ghost var busyButton: Option<(string, bool)>

    constructor (fields: Fields, button: SubmitButton)
      ensures this.fields == fields && this.button == button
      ensures response == "" && location == None && busyButton == None
    {
      this.fields := fields;
      this.button := button;
      response := "";
      responseColor := "";
      location := None;
      busyButton := None;
    }

    /** The submit handler. `handoffFails` stands for an exception thrown
        while the link is handed to the browser, which lands in the catch
        branch. Whatever happens after validation, the button's text and
        enabled state are restored. */
    method OnSubmit(handoffFails: bool)
      modifies this, button
      ensures button.text == old(button.text)
      ensures Submit(old(fields)).Accepted? ==> !button.disabled
      ensures !Submit(old(fields)).Accepted? ==> button.disabled == old(button.disabled)
      ensures Submit(old(fields)) == MissingFields ==>
        response == MissingFieldsText && responseColor == ErrorColor &&
        fields == old(fields) && location == old(location) && busyButton == old(busyButton)
      ensures Submit(old(fields)) == InvalidEmail ==>
        response == InvalidEmailText && responseColor == ErrorColor &&
        fields == old(fields) && location == old(location) && busyButton == old(busyButton)
      ensures Submit(old(fields)).Accepted? && !handoffFails ==>
        location == Some(Submit(old(fields)).link) && response == SentText &&
        responseColor == SuccessColor && fields == Fields("", "", "")
      ensures Submit(old(fields)).Accepted? && handoffFails ==>
        location == old(location) && response == FailedText &&
        responseColor == ErrorColor && fields == old(fields)
      ensures Submit(old(fields)).Accepted? ==> busyButton == Some((SendingText, true))
    {
      var data := fields;
      if data.name == [] || data.email == [] || data.message == [] {
        response := MissingFieldsText;
        responseColor := ErrorColor;
        return;
      }
      ValidEmailIffPattern(data.email);
      if !ValidEmail(data.email) {
        response := InvalidEmailText;
        responseColor := ErrorColor;
        return;
      }
      var originalText := button.text;
      button.text := SendingText;
      button.disabled := true;
      busyButton := Some((button.text, button.disabled));
      var mailtoLink := Link(Recipient, Subject(data.name), Body(data));
      if !handoffFails {
        location := Some(mailtoLink);
        response := SentText;
        responseColor := SuccessColor;
        fields := Fields("", "", "");
      } else {
        response := FailedText;
        responseColor := ErrorColor;
      }
      button.text := originalText;
      button.disabled := false;
    }
  }
}
