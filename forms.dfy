/** The three input forms: `SignupForm` with its `clean_email` and `clean`
    hooks, and the effective (later) definitions of `BookmarkForm` and
    `ContactForm`. A form turns the raw submitted strings into cleaned data or
    into the set of errors Django would attach to it. */
module Forms {
  import opened Wrappers
  import opened Text
  import opened Collaborators
  import opened Models

  datatype Field = Email | Password | ConfirmPassword | Title | Url | Name | Message

  datatype Code =
    | Required
    | MinLength(limit: nat)
    | MaxLength(limit: nat)
    | NullCharacters
    | InvalidUrl
    | InvalidEmail
    | DuplicateEmail
    | Mismatch

  datatype FormError = FormError(field: Field, code: Code)

  datatype Syntax = Plain | UrlSyntax | EmailSyntax

  /** A Django `CharField` (or its `URLField`/`EmailField` subclass) as a form
      declares it; a `minLength` of 0 means no minimum. */
  datatype CharField = CharField(required: bool, minLength: nat, maxLength: Option<nat>, syntax: Syntax)

  /** Every form `CharField` refuses values containing U+0000. */
  const NullChar: char := '\U{0000}'

  predicate SyntaxOk(syntax: Syntax, v: string)
  {
    match syntax
    case Plain => true
    case UrlSyntax => IsValidUrl(v)
    case EmailSyntax => IsValidEmail(v)
  }

  /** What a stripped value must satisfy to pass the field: an empty value
      passes exactly when the field is optional, any other value must meet
      every bound and the syntax. */
  predicate Accepts(f: CharField, v: string)
  {
    if v == "" then !f.required
    else
      && |v| >= f.minLength
      && (f.maxLength.Some? ==> |v| <= f.maxLength.value)
      && NullChar !in v
      && SyntaxOk(f.syntax, v)
  }

  /** The error codes `Field.clean` raises for a stripped value: for an empty
      value only the required check runs; otherwise every validator runs and
      all failures are collected. */
  function Codes(f: CharField, v: string): (r: set<Code>)
    ensures r == {} <==> Accepts(f, v)
    ensures DuplicateEmail !in r && Mismatch !in r
  {
    if v == "" then (if f.required then {Required} else {})
    else
      (if |v| < f.minLength then {MinLength(f.minLength)} else {})
      + (if f.maxLength.Some? && |v| > f.maxLength.value then {MaxLength(f.maxLength.value)} else {})
      + (if NullChar in v then {NullCharacters} else {})
      + (match f.syntax
         case Plain => {}
         case UrlSyntax => if IsValidUrl(v) then {} else {InvalidUrl}
         case EmailSyntax => if IsValidEmail(v) then {} else {InvalidEmail})
  }

  /** Attach a field's codes to that field. */
  function Tag(field: Field, codes: set<Code>): (r: set<FormError>)
    ensures forall e :: e in r <==> e.field == field && e.code in codes
    ensures r == {} <==> codes == {}
  {
    var r := set c | c in codes :: FormError(field, c);
    assert codes != {} ==> r != {} by {
      if codes != {} {
        var c :| c in codes;
        assert FormError(field, c) in r;
      }
    }
    r
  }

  // ---------------------------------------------------------------- signup

  datatype SignupInput = SignupInput(email: string, password: string, confirmPassword: string)

  /** Cleaned signup data; the confirmation is not kept. */
  datatype SignupData = SignupData(email: string, password: string)

  /** `min_length=8` on the password field. */
  const PasswordMinLength: nat := 8

  /** `User.email` is an optional `EmailField` of Django's user model. */
  const SignupEmailField := CharField(false, 0, Some(EmailMaxLength), EmailSyntax)
  const PasswordField := CharField(true, PasswordMinLength, None, Plain)
  const ConfirmPasswordField := CharField(true, 0, None, Plain)

  /** Field errors for the e-mail; `clean_email` (the lookup among the
      registered addresses) only runs once the field itself has cleaned. */
  function EmailErrors(email: string, registered: set<string>): (r: set<FormError>)
    ensures forall e :: e in r ==> e.field == Email
    ensures r == {} <==> Accepts(SignupEmailField, email) && email !in registered
    ensures FormError(Email, DuplicateEmail) in r <==> Accepts(SignupEmailField, email) && email in registered
  {
    var codes := Codes(SignupEmailField, email);
    if codes != {} then Tag(Email, codes)
    else if email in registered then {FormError(Email, DuplicateEmail)}
    else {}
  }

  /** The form-wide `clean`: both passwords must have survived field cleaning
      (they are then in `cleaned_data`), be non-empty, and differ. */
  function MismatchErrors(password: string, confirm: string): (r: set<FormError>)
    ensures r <= {FormError(ConfirmPassword, Mismatch)}
    ensures r != {} ==> password != confirm && |password| >= PasswordMinLength
    ensures password == confirm ==> r == {}
  {
    var p := if Accepts(PasswordField, password) then password else "";
    var c := if Accepts(ConfirmPasswordField, confirm) then confirm else "";
    if p != "" && c != "" && p != c then {FormError(ConfirmPassword, Mismatch)} else {}
  }

  /** The model validation that `is_valid()` runs after `clean`: the cleaned
      password is copied into `User.password` and checked against that
      column's bound. A field that failed cleaning is excluded from it. */
  function PasswordColumnErrors(password: string): (r: set<FormError>)
    ensures r <= {FormError(Password, MaxLength(PasswordColumnMaxLength))}
    ensures r == {} <==> !Accepts(PasswordField, password) || |password| <= PasswordColumnMaxLength
  {
    if Accepts(PasswordField, password) && |password| > PasswordColumnMaxLength
    then {FormError(Password, MaxLength(PasswordColumnMaxLength))}
    else {}
  }

  function SignupErrors(input: SignupInput, registered: set<string>): set<FormError>
  {
    var email, password, confirm := Strip(input.email), Strip(input.password), Strip(input.confirmPassword);
    EmailErrors(email, registered)
    + Tag(Password, Codes(PasswordField, password))
    + Tag(ConfirmPassword, Codes(ConfirmPasswordField, confirm))
    + MismatchErrors(password, confirm)
    + PasswordColumnErrors(password)
  }

  /** The reference statement of a valid signup: a well-formed (or empty)
      e-mail that nobody has registered, a stripped password of 8 to 128
      characters, and a confirmation that matches it. */
  predicate SignupAcceptable(input: SignupInput, registered: set<string>)
  {
    var email, password := Strip(input.email), Strip(input.password);
    && Accepts(SignupEmailField, email)
    && email !in registered
    && PasswordMinLength <= |password| <= PasswordColumnMaxLength
    && NullChar !in password
    && password == Strip(input.confirmPassword)
  }

  lemma PasswordCodesEmpty(password: string)
    ensures Codes(PasswordField, password) == {} <==> |password| >= PasswordMinLength && NullChar !in password
  {
  }

  lemma MismatchErrorsEmpty(password: string, confirm: string)
    requires |password| >= PasswordMinLength && NullChar !in password
    ensures Codes(ConfirmPasswordField, confirm) == {} && MismatchErrors(password, confirm) == {} <==> password == confirm
  {
  }

  lemma SignupErrorsUnion(input: SignupInput, registered: set<string>)
    ensures var email, password, confirm := Strip(input.email), Strip(input.password), Strip(input.confirmPassword);
            SignupErrors(input, registered) == {} <==>
              && EmailErrors(email, registered) == {}
              && Codes(PasswordField, password) == {}
              && Codes(ConfirmPasswordField, confirm) == {}
              && MismatchErrors(password, confirm) == {}
              && PasswordColumnErrors(password) == {}
  {
  }

  /** No signup error is raised exactly when the reference conditions hold. */
  lemma SignupErrorsEmpty(input: SignupInput, registered: set<string>)
    ensures SignupErrors(input, registered) == {} <==> SignupAcceptable(input, registered)
  {
    var email, password, confirm := Strip(input.email), Strip(input.password), Strip(input.confirmPassword);
    SignupErrorsUnion(input, registered);
    PasswordCodesEmpty(password);
    if |password| >= PasswordMinLength && NullChar !in password {
      MismatchErrorsEmpty(password, confirm);
    }
  }

  /** `SignupForm.is_valid()` followed by `cleaned_data`. */
  function ValidateSignup(input: SignupInput, registered: set<string>): (r: Result<SignupData, set<FormError>>)
    ensures r.Success? <==> SignupAcceptable(input, registered)
    ensures r.Success? ==> r.value.email == Strip(input.email) && r.value.email !in registered
    ensures r.Success? ==> r.value.password == Strip(input.password)
    ensures r.Success? ==> PasswordMinLength <= |r.value.password| <= PasswordColumnMaxLength
    ensures r.Failure? ==> r.error != {}
  {
    var errors := SignupErrors(input, registered);
    SignupErrorsEmpty(input, registered);
    if errors == {} then Success(SignupData(Strip(input.email), Strip(input.password))) else Failure(errors)
  }

  /** A stripped password of 1 to 7 characters draws the minimum-length error. */
  lemma ShortPasswordRejected(input: SignupInput, registered: set<string>)
    requires 0 < |Strip(input.password)| < PasswordMinLength
    ensures FormError(Password, MinLength(PasswordMinLength)) in SignupErrors(input, registered)
    ensures ValidateSignup(input, registered).Failure?
  {
  }

  /** A stripped password longer than the 128-character `User.password`
      column is refused; the error is the column's, raised after `clean`. */
  lemma LongPasswordRejected(input: SignupInput, registered: set<string>)
    requires |Strip(input.password)| > PasswordColumnMaxLength
    ensures NullChar !in Strip(input.password) ==>
              FormError(Password, MaxLength(PasswordColumnMaxLength)) in SignupErrors(input, registered)
    ensures ValidateSignup(input, registered).Failure?
  {
  }

  /** An address that is already registered is refused, with the duplicate
      error whenever the address is otherwise well-formed. */
  lemma DuplicateEmailRejected(input: SignupInput, registered: set<string>)
    requires Strip(input.email) in registered
    ensures ValidateSignup(input, registered).Failure?
    ensures Accepts(SignupEmailField, Strip(input.email)) ==>
              FormError(Email, DuplicateEmail) in SignupErrors(input, registered)
  {
  }

  /** The mismatch error appears exactly when both passwords passed their own
      fields and differ. */
  lemma MismatchReported(input: SignupInput, registered: set<string>)
    ensures var p, c := Strip(input.password), Strip(input.confirmPassword);
            FormError(ConfirmPassword, Mismatch) in SignupErrors(input, registered) <==>
              Accepts(PasswordField, p) && Accepts(ConfirmPasswordField, c) && p != c
  {
  }

  /** A password that fails the length check never also draws a mismatch. */
  lemma ShortPasswordNoMismatch(input: SignupInput, registered: set<string>)
    requires |Strip(input.password)| < PasswordMinLength
    ensures FormError(ConfirmPassword, Mismatch) !in SignupErrors(input, registered)
  {
    MismatchReported(input, registered);
  }

  /** "longpass1" confirmed as "longpass2" is refused as a mismatch. */
  lemma MismatchExample(email: string, registered: set<string>)
    ensures var input := SignupInput(email, "longpass1", "longpass2");
            FormError(ConfirmPassword, Mismatch) in SignupErrors(input, registered)
            && ValidateSignup(input, registered).Failure?
  {
    var input := SignupInput(email, "longpass1", "longpass2");
    var p, c := "longpass1", "longpass2";
    assert Strip(input.password) == p && Strip(input.confirmPassword) == c by {
      StripTrimmed(p);
      StripTrimmed(c);
    }
    assert Accepts(PasswordField, p) && Accepts(ConfirmPasswordField, c) by {
      assert NullChar !in p && NullChar !in c;
    }
    assert p != c by {
      assert p[8] != c[8];
    }
    MismatchReported(input, registered);
  }

  // -------------------------------------------------------------- bookmark

  /** The only fields the effective `BookmarkForm` takes: owner and time
      cannot be supplied. */
  datatype BookmarkInput = BookmarkInput(title: string, url: string)

  const TitleField := CharField(true, 0, Some(TitleMaxLength), Plain)
  const UrlField := CharField(true, 0, Some(UrlMaxLength), UrlSyntax)

  function BookmarkErrors(input: BookmarkInput): set<FormError>
  {
    Tag(Title, Codes(TitleField, Strip(input.title))) + Tag(Url, Codes(UrlField, Strip(input.url)))
  }

  lemma BookmarkErrorsEmpty(input: BookmarkInput)
    ensures var t, u := Strip(input.title), Strip(input.url);
            BookmarkErrors(input) == {} <==> ValidBookmarkFields(t, u) && NullChar !in t && NullChar !in u
  {
    var t, u := Strip(input.title), Strip(input.url);
    assert BookmarkErrors(input) == {} <==> Codes(TitleField, t) == {} && Codes(UrlField, u) == {};
    assert Codes(TitleField, t) == {} <==> t != "" && |t| <= TitleMaxLength && NullChar !in t;
    assert Codes(UrlField, u) == {} <==> u != "" && |u| <= UrlMaxLength && NullChar !in u && IsValidUrl(u);
  }

  /** `BookmarkForm.is_valid()`: the cleaned title and url meet the model's
      bounds and carry no U+0000. */
  function ValidateBookmark(input: BookmarkInput): (r: Result<BookmarkInput, set<FormError>>)
    ensures var t, u := Strip(input.title), Strip(input.url);
            r.Success? <==> ValidBookmarkFields(t, u) && NullChar !in t && NullChar !in u
    ensures r.Success? ==> r.value == BookmarkInput(Strip(input.title), Strip(input.url))
    ensures r.Failure? ==> r.error != {}
  {
    var errors := BookmarkErrors(input);
    BookmarkErrorsEmpty(input);
    if errors == {} then Success(BookmarkInput(Strip(input.title), Strip(input.url))) else Failure(errors)
  }

  // --------------------------------------------------------------- contact

  /** The only fields the effective `ContactForm` takes. */
  datatype ContactInput = ContactInput(name: string, email: string, message: string)

  const NameField := CharField(true, 0, Some(NameMaxLength), Plain)
  const ContactEmailField := CharField(true, 0, Some(EmailMaxLength), EmailSyntax)
  const MessageField := CharField(true, 0, None, Plain)

  function ContactErrors(input: ContactInput): set<FormError>
  {
    Tag(Name, Codes(NameField, Strip(input.name)))
    + Tag(Email, Codes(ContactEmailField, Strip(input.email)))
    + Tag(Message, Codes(MessageField, Strip(input.message)))
  }

  lemma ContactErrorsEmpty(input: ContactInput)
    ensures var n, e, m := Strip(input.name), Strip(input.email), Strip(input.message);
            ContactErrors(input) == {} <==> ValidContactFields(n, e, m) && NullChar !in n && NullChar !in e && NullChar !in m
  {
    var n, e, m := Strip(input.name), Strip(input.email), Strip(input.message);
    assert ContactErrors(input) == {} <==>
      Codes(NameField, n) == {} && Codes(ContactEmailField, e) == {} && Codes(MessageField, m) == {};
    assert Codes(NameField, n) == {} <==> n != "" && |n| <= NameMaxLength && NullChar !in n;
    assert Codes(ContactEmailField, e) == {} <==> e != "" && |e| <= EmailMaxLength && NullChar !in e && IsValidEmail(e);
    assert Codes(MessageField, m) == {} <==> m != "" && NullChar !in m;
  }

  /** `ContactForm.is_valid()`: the cleaned fields meet the model's bounds and
      carry no U+0000. */
  function ValidateContact(input: ContactInput): (r: Result<ContactInput, set<FormError>>)
    ensures var n, e, m := Strip(input.name), Strip(input.email), Strip(input.message);
            r.Success? <==> ValidContactFields(n, e, m) && NullChar !in n && NullChar !in e && NullChar !in m
    ensures r.Success? ==> r.value == ContactInput(Strip(input.name), Strip(input.email), Strip(input.message))
    ensures r.Failure? ==> r.error != {}
  {
    var errors := ContactErrors(input);
    ContactErrorsEmpty(input);
    if errors == {} then Success(ContactInput(Strip(input.name), Strip(input.email), Strip(input.message)))
    else Failure(errors)
  }

  /** A contact e-mail that is non-blank but has no `@` is refused as an
      invalid address. */
  lemma ContactRejectsAtlessEmail(input: ContactInput)
    requires Strip(input.email) != "" && '@' !in Strip(input.email)
    ensures FormError(Email, InvalidEmail) in ContactErrors(input)
    ensures ValidateContact(input).Failure?
  {
    var e := Strip(input.email);
    AtlessEmailInvalid(e);
    assert InvalidEmail in Codes(ContactEmailField, e);
    assert FormError(Email, InvalidEmail) in Tag(Email, Codes(ContactEmailField, e));
  }

  /** "not-an-email" is refused as an invalid address. */
  lemma ContactRejectsMalformedEmail(name: string, message: string)
    ensures var input := ContactInput(name, "not-an-email", message);
            FormError(Email, InvalidEmail) in ContactErrors(input) && ValidateContact(input).Failure?
  {
    var e := "not-an-email";
    StripTrimmed(e);
    assert '@' !in e;
    ContactRejectsAtlessEmail(ContactInput(name, e, message));
  }
}
