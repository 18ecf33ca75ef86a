/**
 The per-field rules of the contact form (`validateField`) and the way a
 field's error state is painted and cleared (`validateField`, `clearError`).
 A field is modelled by its text and the three pieces of DOM state the
 handlers touch: the input's `error` class and the error element's text and
 `show` class. The error element may be missing from the page.
 */
module Validator {
  import opened Options
  import opened Text
  import opened Addresses

  datatype FieldKind = Name | Email | Subject | Message

  /** Outcome of one validation: `valid`, and the message to display (empty when valid). */
  datatype Verdict = Verdict(valid: bool, message: string)

  /** What the page shows next to an input: its text and whether it has the `show` class. */
  datatype ErrorLabel = ErrorLabel(text: string, shown: bool)

  /** An input of the form: its current text, whether it carries the `error`
      class, and its error element when the page has one. */
  datatype Field = Field(value: string, hasError: bool, errorElement: Option<ErrorLabel>)

  /** The second check applied once the field is known to be non-empty. */
  datatype Rule = AtLeast(minLength: nat, tooShort: string) | EmailShape

  const InvalidEmailMessage := "Please enter a valid email address"

  function RequiredMessage(k: FieldKind): string {
    match k
    case Name => "Name is required"
    case Email => "Email is required"
    case Subject => "Subject is required"
    case Message => "Message is required"
  }

  function RuleOf(k: FieldKind): Rule {
    match k
    case Name => AtLeast(2, "Name must be at least 2 characters long")
    case Email => EmailShape
    case Subject => AtLeast(5, "Subject must be at least 5 characters long")
    case Message => AtLeast(10, "Message must be at least 10 characters long")
  }

  /** The verdict `validateField` reaches for a field of kind `k` holding `raw`.
      The text is trimmed first; a blank field is reported as required, a
      non-blank one is checked by its kind's rule. */
  function Validate(k: FieldKind, raw: string): (v: Verdict)
    ensures v.valid <==> v.message == ""
  {
    var value := Trim(raw);
    if value == [] then Verdict(false, RequiredMessage(k))
    else
      match RuleOf(k)
      case AtLeast(n, tooShort) =>
        if |value| < n then Verdict(false, tooShort) else Verdict(true, "")
      case EmailShape =>
        if IsEmailAddress(value) then Verdict(true, "") else Verdict(false, InvalidEmailMessage)
  }

  /** A blank field, of any kind, is rejected as required. */
  lemma BlankIsRequired(k: FieldKind, raw: string)
    requires AllWhitespace(raw)
    ensures Validate(k, raw) == Verdict(false, RequiredMessage(k))
  {
    TrimEmptyIffBlank(raw);
  }

  /** A non-blank name, subject or message is valid exactly when its trimmed
      text reaches the kind's minimum length, and is otherwise rejected as
      too short. */
  lemma LengthRule(k: FieldKind, raw: string)
    requires k != Email && !AllWhitespace(raw)
    ensures Validate(k, raw).valid <==> |Trim(raw)| >= RuleOf(k).minLength
    ensures !Validate(k, raw).valid ==> Validate(k, raw).message == RuleOf(k).tooShort
  {
    TrimEmptyIffBlank(raw);
  }

  /** A non-blank e-mail is valid exactly when its trimmed text matches the
      pattern, and is otherwise rejected with the invalid-address message. */
  lemma EmailRule(raw: string)
    requires !AllWhitespace(raw)
    ensures Validate(Email, raw).valid <==> MatchesEmailPattern(Trim(raw))
    ensures !Validate(Email, raw).valid ==> Validate(Email, raw).message == InvalidEmailMessage
  {
    TrimEmptyIffBlank(raw);
    EmailPatternCharacterized(Trim(raw));
  }

  /** Result of painting a field: the field as left on the page and the validity returned. */
  datatype Validated = Validated(field: Field, valid: bool)

  /** `validateField` on an input: computes the verdict, then sets or clears the
      `error` class and, when the error element exists, its text and `show` class. */
  function ValidateField(k: FieldKind, f: Field): (r: Validated)
    ensures r.valid == Validate(k, f.value).valid
    ensures r.field.value == f.value
    ensures r.field.hasError <==> !r.valid
    ensures r.field.errorElement.Some? <==> f.errorElement.Some?
    ensures r.field.errorElement.Some? ==>
              r.field.errorElement.value == ErrorLabel(Validate(k, f.value).message, !r.valid)
  {
    var v := Validate(k, f.value);
    var errorElement := if f.errorElement.Some? then Some(ErrorLabel(v.message, !v.valid)) else None;
    Validated(Field(f.value, !v.valid, errorElement), v.valid)
  }

  /** `clearError`, run on every keystroke: removes the error display when the
      field has one and is no longer blank. It does not re-validate. */
  function ClearError(f: Field): (g: Field)
    ensures !f.hasError || AllWhitespace(f.value) ==> g == f
    ensures f.hasError && !AllWhitespace(f.value) ==>
              && g.value == f.value
              && !g.hasError
              && (g.errorElement.Some? <==> f.errorElement.Some?)
              && (g.errorElement.Some? ==> g.errorElement.value == ErrorLabel("", false))
  {
    TrimEmptyIffBlank(f.value);
    if f.hasError && Trim(f.value) != [] then
      var errorElement := if f.errorElement.Some? then Some(ErrorLabel("", false)) else None;
      Field(f.value, false, errorElement)
    else f
  }

  /** The page agrees with itself: an error element is shown exactly when the
      input carries the `error` class, and has text exactly then. */
  predicate Consistent(f: Field) {
    f.errorElement.Some? ==> (f.errorElement.value.shown <==> f.hasError) && (f.errorElement.value.text == "" <==> !f.hasError)
  }

  /** Validation leaves every field consistent, whatever state it was in. */
  lemma ValidateFieldConsistent(k: FieldKind, f: Field)
    ensures Consistent(ValidateField(k, f).field)
  {
  }

  /** Clearing keeps a consistent field consistent. */
  lemma ClearErrorConsistent(f: Field)
    requires Consistent(f)
    ensures Consistent(ClearError(f))
  {
  }

  /** Clearing never raises an error, and a second clear changes nothing. */
  lemma ClearErrorIdempotent(f: Field)
    ensures ClearError(f).hasError ==> f.hasError
    ensures ClearError(ClearError(f)) == ClearError(f)
  {
  }

  /** The verdict depends only on the trimmed text. */
  lemma ValidateSeesTrimmedText(k: FieldKind, raw: string)
    ensures Validate(k, raw) == Validate(k, Trim(raw))
  {
    TrimIdempotent(raw);
  }

  /** Validating a field twice in a row gives the same field and answer. */
  lemma ValidateFieldIdempotent(k: FieldKind, f: Field)
    ensures ValidateField(k, ValidateField(k, f).field) == ValidateField(k, f)
  {
  }

  /** Once a field has been validated and found valid, typing-time clearing
      has nothing to do. */
  lemma ClearAfterValidNoop(k: FieldKind, f: Field)
    requires ValidateField(k, f).valid
    ensures ClearError(ValidateField(k, f).field) == ValidateField(k, f).field
  {
  }

  /** `clearError` only looks for non-blank text, so it can take the error
      display away from a field that is still too short. */
  lemma ClearErrorDoesNotRevalidate()
    ensures var f := Field("A", true, Some(ErrorLabel(RuleOf(Name).tooShort, true)));
            && !Validate(Name, f.value).valid
            && !ClearError(f).hasError
  {
    var f := Field("A", true, Some(ErrorLabel(RuleOf(Name).tooShort, true)));
    assert !AllWhitespace(f.value) by { assert !IsWhitespace(f.value[0]); }
    assert Trim(f.value) == "A" by { TrimPadded("", "A", ""); assert "" + "A" + "" == "A"; }
  }

  /** The worked examples of the name rule: one character is too short, two suffice. */
  lemma NameTooShortExample()
    ensures Validate(Name, "A") == Verdict(false, "Name must be at least 2 characters long")
  {
    TrimOfUnpadded("A");
    assert !IsWhitespace("A"[0]);
  }

  lemma NameLongEnoughExample()
    ensures Validate(Name, "Al").valid
  {
    TrimOfUnpadded("Al");
    assert !IsWhitespace("Al"[0]);
  }

  /** The worked examples of the e-mail rule. */
  lemma EmailAcceptedExample()
    ensures Validate(Email, "a@b.com").valid
  {
    SampleAddressShape();
    TrimOfUnpadded("a@b.com");
  }

  lemma EmailRejectedExample()
    ensures Validate(Email, "a@b") == Verdict(false, InvalidEmailMessage)
  {
    var bad := "a@b";
    TrimOfUnpadded(bad);
    assert !IsWhitespace(bad[0]);
    assert IndexOf(bad, '@') == 1;
    assert !HasInnerDot(bad[2..]);
  }
}
