/** The `.contact-form` handlers: live validation on `input`/`blur`, and the
    submit handler with its validation gate, honeypot abort, button state and
    POST to the form's `action`. The POST's outcome is a parameter. */
module Contact {
  import opened Whitespace
  import opened EmailCheck
  import opened FieldValidation

  /** How the awaited `fetch` ended: a response with `ok` set, a response
      without it, or a thrown error. */
  datatype FetchOutcome = Ok | NotOk | Threw

  const Sending := "Sending..."

  /** The toasts the listener can show. */
  datatype Toast = SentToast | FailedToast | NetworkErrorToast

  /** The wording of each toast. */
  function ToastText(t: Toast): (text: string)
    ensures text != ""
  {
    match t
    case SentToast => "Thanks! Your message has been sent."
    case FailedToast => "Sorry, something went wrong."
    case NetworkErrorToast => "Network error. Please try again later."
  }

  /** `originalText || 'Send'`: the text the button gets back. */
  function Restored(original: string): (text: string)
    ensures text != ""
    ensures original != "" ==> text == original
    ensures original == "" ==> text == "Send"
  {
    if original == "" then "Send" else original
  }

  /** The toast shown for a completed request. */
  function ToastFor(outcome: FetchOutcome): (t: Toast)
    ensures t == SentToast <==> outcome == Ok
    ensures t == NetworkErrorToast <==> outcome == Threw
  {
    match outcome
    case Ok => SentToast
    case NotOk => FailedToast
    case Threw => NetworkErrorToast
  }

  /** The three toasts read differently, so a reader can tell the outcomes
      apart. */
  lemma ToastsDistinct(a: Toast, b: Toast)
    ensures ToastText(a) == ToastText(b) ==> a == b
  {
    assert ToastText(SentToast)[0] == 'T' && ToastText(FailedToast)[0] == 'S';
    assert ToastText(NetworkErrorToast)[0] == 'N';
  }

  class ContactForm {
    /** The inputs the page has; handlers are attached to these only. */
    const present: set<Field>
    /** Whether the form has a `button[type="submit"]`. */
    const hasSubmitButton: bool
    /** The values `form.reset()` restores. */
    const defaults: Entries

    /** What the inputs hold now. */
    var entries: Entries
    /** The message in the error node after each input, for the inputs that
        have one; the node shows `Text(errors[f])`. */
    var errors: map<Field, FieldMessage>
    /** The `aria-invalid` attribute of each input, once `setError` has run on it. */
    var ariaInvalid: map<Field, string>
    var buttonDisabled: bool
    var buttonText: string
    /** Number of POST requests issued. */
    var requests: nat
    /** The toasts shown, oldest first. */
    var toasts: seq<Toast>

    /** Errors belong to inputs on the page, and each input's `aria-invalid`
        says whether its error text is non-empty. */
    ghost predicate Valid()
      reads this
    {
      errors.Keys <= present && ariaInvalid.Keys == errors.Keys &&
      forall f | f in errors :: ariaInvalid[f] == AriaInvalid(errors[f])
    }

    constructor (present: set<Field>, hasSubmitButton: bool, defaults: Entries, buttonText: string)
      ensures Valid()
      ensures this.present == present && this.hasSubmitButton == hasSubmitButton
      ensures this.defaults == defaults && entries == defaults
      ensures errors == map[] && requests == 0 && toasts == []
      ensures !buttonDisabled && this.buttonText == buttonText
    {
      this.present := present;
      this.hasSubmitButton := hasSubmitButton;
      this.defaults := defaults;
      this.buttonText := buttonText;
      entries := defaults;
      errors := map[];
      ariaInvalid := map[];
      buttonDisabled := false;
      requests := 0;
      toasts := [];
    }

    /** `setError`: write the message and the matching `aria-invalid`;
        nothing happens for an input the page does not have. */
    method SetError(f: Field, msg: FieldMessage)
      requires Valid()
      modifies this
      ensures Valid()
      ensures errors == if f in present then old(errors)[f := msg] else old(errors)
      ensures entries == old(entries) && requests == old(requests) && toasts == old(toasts)
      ensures buttonDisabled == old(buttonDisabled) && buttonText == old(buttonText)
    {
      if f in present {
        errors := errors[f := msg];
        ariaInvalid := ariaInvalid[f := AriaInvalid(msg)];
      }
    }

    /** The `input`/`blur` listener of a field: show exactly that field's
        current error. */
    method OnInputOrBlur(f: Field)
      requires Valid() && f in present
      modifies this
      ensures Valid()
      ensures errors == old(errors)[f := FieldError(f, entries.Get(f))]
      ensures f in ariaInvalid && (ariaInvalid[f] == "true" <==> FieldError(f, entries.Get(f)) != NoMessage)
      ensures entries == old(entries) && requests == old(requests) && toasts == old(toasts)
      ensures buttonDisabled == old(buttonDisabled) && buttonText == old(buttonText)
    {
      if f == Name {
        SetError(f, if Trim(entries.name) != [] then NoMessage else NameMissing);
      } else if f == Email {
        var v := Trim(entries.email);
        SetError(f, if v == [] then EmailMissing else if !EmailPattern(v) then EmailMalformed else NoMessage);
      } else if f == Subject {
        SetError(f, if Trim(entries.subject) != [] then NoMessage else SubjectMissing);
      } else {
        SetError(f, if Trim(entries.message) != [] then NoMessage else MessageMissing);
      }
    }

    /** One check of the submit listener: the input, when the page has it,
        is given its rule's message; `ok` says whether it passed. An absent
        input is left alone and passes. */
    method Check(f: Field) returns (ok: bool)
      requires Valid()
      modifies this
      ensures Valid()
      ensures errors == Recheck(present, entries, old(errors), f)
      ensures ok == (f !in present || FieldError(f, entries.Get(f)) == NoMessage)
      ensures entries == old(entries) && requests == old(requests) && toasts == old(toasts)
      ensures buttonDisabled == old(buttonDisabled) && buttonText == old(buttonText)
    {
      ok := true;
      if f == Email {
        if Email in present {
          var emailValue := Trim(entries.email);
          if emailValue == [] {
            SetError(Email, EmailMissing);
            ok := false;
          } else if !EmailPattern(emailValue) {
            SetError(Email, EmailMalformed);
            ok := false;
          } else {
            SetError(Email, NoMessage);
          }
        }
      } else if f in present && Trim(entries.Get(f)) == [] {
        SetError(f, Missing(f));
        ok := false;
      } else {
        SetError(f, NoMessage);
      }
    }

    /** The four checks at the head of the submit listener, in page order:
        each present input gets its rule's message and `valid` says whether
        all of them passed. */
    method CheckAll() returns (valid: bool)
      requires Valid()
      modifies this
      ensures Valid()
      ensures errors == Checked(present, entries)
      ensures valid == Passes(present, entries)
      ensures entries == old(entries) && requests == old(requests) && toasts == old(toasts)
      ensures buttonDisabled == old(buttonDisabled) && buttonText == old(buttonText)
    {
      valid := true;
      var ok := Check(Name);
      valid := valid && ok;
      ok := Check(Email);
      valid := valid && ok;
      ok := Check(Subject);
      valid := valid && ok;
      ok := Check(Message);
      valid := valid && ok;
      RecheckAll(present, entries, old(errors));
      if valid {
        forall f | f in present ensures FieldError(f, entries.Get(f)) == NoMessage {
          assert f.Name? || f.Email? || f.Subject? || f.Message?;
        }
      }
    }

    /** The rest of the submit listener once the checks passed: the button
        is disabled and relabelled, a filled honeypot aborts with no request,
        otherwise one POST is made and its outcome toasted; every path gives
        the button back enabled with its original label, and only an `ok`
        response resets the form. */
    method Send(outcome: FetchOutcome)
      requires Valid()
      modifies this
      ensures Valid() && errors == old(errors)
      ensures var sends := Trim(old(entries).company) == [];
        && requests == old(requests) + (if sends then 1 else 0)
        && toasts == old(toasts) + (if sends then [ToastFor(outcome)] else [])
        && entries == (if sends && outcome == Ok then defaults else old(entries))
      ensures hasSubmitButton ==> !buttonDisabled && buttonText == Restored(old(buttonText))
      ensures !hasSubmitButton ==> buttonDisabled == old(buttonDisabled) && buttonText == old(buttonText)
    {
      var originalText := if hasSubmitButton then buttonText else "";
      if hasSubmitButton {
        buttonDisabled := true;
        buttonText := Sending;
      }

      if Trim(entries.company) != [] {
        if hasSubmitButton {
          buttonDisabled := false;
          buttonText := Restored(originalText);
        }
        return;
      }

      requests := requests + 1;
      toasts := toasts + [ToastFor(outcome)];
      if outcome == Ok {
        entries := defaults;
      }

      // the `finally` block
      if hasSubmitButton {
        buttonDisabled := false;
        buttonText := Restored(originalText);
      }
    }

    /** The submit listener, run to completion with the request's outcome
        given. A failed check stops before any request and leaves the button
        alone; a filled honeypot stops before the request too. */
    method Submit(outcome: FetchOutcome)
      requires Valid()
      modifies this
      ensures Valid()
      ensures errors == Checked(present, old(entries))
      ensures var passes := Passes(present, old(entries));
              var sends := passes && Trim(old(entries).company) == [];
        && requests == old(requests) + (if sends then 1 else 0)
        && toasts == old(toasts) + (if sends then [ToastFor(outcome)] else [])
        && entries == (if sends && outcome == Ok then defaults else old(entries))
        && (passes && hasSubmitButton ==> !buttonDisabled && buttonText == Restored(old(buttonText)))
        && (!passes || !hasSubmitButton ==>
              buttonDisabled == old(buttonDisabled) && buttonText == old(buttonText))
    {
      var valid := CheckAll();
      if !valid {
        return;
      }
      Send(outcome);
    }
  }
}
