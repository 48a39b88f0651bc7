/** Per-field rules of the contact form: which message each input shows for
    a given value. The same rules run live on `input`/`blur` and on submit. */
module FieldValidation {
  import opened Whitespace
  import opened EmailCheck

  /** The four validated inputs (`#name`, `#email`, `#subject`, `#message`). */
  datatype Field = Name | Email | Subject | Message

  /** The texts an error node can show; `NoMessage` is the cleared node. */
  datatype FieldMessage = NoMessage | NameMissing | EmailMissing | EmailMalformed | SubjectMissing | MessageMissing

  /** The wording of each message, as `setError` writes it. */
  function Text(m: FieldMessage): (text: string)
    ensures text == "" <==> m == NoMessage
  {
    match m
    case NoMessage => ""
    case NameMissing => "Please enter your name."
    case EmailMissing => "Please enter your email."
    case EmailMalformed => "Please enter a valid email address."
    case SubjectMissing => "Please enter a subject."
    case MessageMissing => "Please enter a message."
  }

  /** The message a field shows when left blank. */
  function Missing(f: Field): FieldMessage {
    match f
    case Name => NameMissing
    case Email => EmailMissing
    case Subject => SubjectMissing
    case Message => MessageMissing
  }

  /** What the form holds: the four inputs and the hidden `company` honeypot
      (the empty string when the form has no such field). */
  datatype Entries = Entries(name: string, email: string, subject: string, message: string, company: string)
  {
    function Get(f: Field): string {
      match f
      case Name => name
      case Email => email
      case Subject => subject
      case Message => message
    }
  }

  /** The message a field shows for the raw value `value`. */
  function FieldError(f: Field, value: string): (msg: FieldMessage)
    ensures msg == NoMessage || msg == Missing(f) || (f == Email && msg == EmailMalformed)
    ensures msg == Missing(f) <==> Trim(value) == []
  {
    var v := Trim(value);
    if f == Email then
      (if v == [] then EmailMissing else if !EmailPattern(v) then EmailMalformed else NoMessage)
    else
      (if v != [] then NoMessage else Missing(f))
  }

  /** What each message means: a text field complains exactly when it holds
      only white space; the e-mail field says which of its two rules failed,
      and is clear exactly when its trimmed value has the e-mail shape. */
  lemma FieldErrorIff(f: Field, value: string)
    ensures var msg := FieldError(f, value);
      && (f != Email ==> (msg != NoMessage <==> AllSpace(value)) && (msg != NoMessage ==> msg == Missing(f)))
      && (f == Email ==> (msg == EmailMissing <==> AllSpace(value)))
      && (f == Email ==> (msg == EmailMalformed <==> !AllSpace(value) && !EmailShape(Trim(value))))
      && (f == Email ==> (msg == NoMessage <==> EmailShape(Trim(value))))
  {
    TrimSpec(value);
    EmailPatternIff(Trim(value));
  }

  /** The `aria-invalid` value `setError` writes beside a message: "true"
      exactly when the node's text is non-empty. */
  function AriaInvalid(m: FieldMessage): (flag: string)
    ensures flag == "true" || flag == "false"
    ensures flag == "true" <==> Text(m) != ""
  {
    if Text(m) != "" then "true" else "false"
  }

  /** The submit gate: every input present on the page passes its rule. */
  predicate Passes(present: set<Field>, e: Entries)
    ensures Passes(present, e) <==> forall f | f in present :: Text(Checked(present, e)[f]) == ""
  {
    forall f | f in present :: FieldError(f, e.Get(f)) == NoMessage
  }

  /** The error text of each present field after a submit has checked it. */
  function Checked(present: set<Field>, e: Entries): (errors: map<Field, FieldMessage>)
    ensures errors.Keys == present
  {
    map f | f in present :: FieldError(f, e.Get(f))
  }

  /** The error map after one input is checked: its entry is set when the
      page has the input, and nothing changes otherwise. */
  function Recheck(present: set<Field>, e: Entries, errors: map<Field, FieldMessage>, f: Field): map<Field, FieldMessage> {
    if f in present then errors[f := FieldError(f, e.Get(f))] else errors
  }

  /** Checking the four inputs one after the other, from a map that only
      holds entries for inputs on the page, yields `Checked`: whatever an
      earlier submit or a live check left behind is overwritten. */
  lemma RecheckAll(present: set<Field>, e: Entries, errors: map<Field, FieldMessage>)
    requires errors.Keys <= present
    ensures Recheck(present, e, Recheck(present, e, Recheck(present, e, Recheck(present, e, errors,
              Name), Email), Subject), Message) == Checked(present, e)
  {
    var m := Recheck(present, e, Recheck(present, e, Recheck(present, e, Recheck(present, e, errors,
               Name), Email), Subject), Message);
    forall f ensures f in m <==> f in present {
      assert f.Name? || f.Email? || f.Subject? || f.Message?;
    }
    forall f | f in m ensures m[f] == FieldError(f, e.Get(f)) {
      assert f.Name? || f.Email? || f.Subject? || f.Message?;
    }
    assert m == Checked(present, e);
  }

  /** The gate in terms of the values: blank text fields and a malformed
      e-mail block submission; a field absent from the page imposes nothing. */
  lemma PassesIff(present: set<Field>, e: Entries)
    ensures Passes(present, e) <==>
      (Name in present ==> !AllSpace(e.name)) &&
      (Email in present ==> EmailShape(Trim(e.email))) &&
      (Subject in present ==> !AllSpace(e.subject)) &&
      (Message in present ==> !AllSpace(e.message))
  {
    FieldErrorIff(Name, e.name);
    FieldErrorIff(Email, e.email);
    FieldErrorIff(Subject, e.subject);
    FieldErrorIff(Message, e.message);
    if !Passes(present, e) {
      var f :| f in present && FieldError(f, e.Get(f)) != NoMessage;
      assert f.Name? || f.Email? || f.Subject? || f.Message?;
    }
  }
}
